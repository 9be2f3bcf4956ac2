/**
 * The ring of rotating node keys (crates/core/src/nodekey.rs): per identity at most 32 signed
 * announcements, pruned by expiry, that must answer like an unbounded ledger of all of them.
 */
module KeyRing {
  import opened Common
  import opened Payloads

  const MAX_VALIDITY_MS := 30 * 24 * 60 * 60 * 1000
  const MAX_ANNOUNCEMENTS := 32

  /** Ed25519 verification: (key, message, signature). */
  type Signed = (NodeId, seq<Byte>, seq<Byte>) -> bool

  predicate Verifies(signed: Signed, a: Announcement) {
    && |a.sig| == 64
    && signed(a.identity, AnnouncementPayload(a), a.sig)
    && a.notAfter > a.notBefore
    && SatU64(a.notAfter - a.notBefore) <= MAX_VALIDITY_MS
    && a.serial != 0
  }

  predicate ValidAt(a: Announcement, now: U64) { a.notBefore <= now < a.notAfter }

  // ---------------------------------------------------------------- one identity's slot

  type Slot = seq<Announcement>

  /** `Vec::retain`. */
  function Retain(s: Slot, keep: Announcement -> bool): Slot {
    if s == [] then [] else (if keep(s[0]) then [s[0]] else []) + Retain(s[1..], keep)
  }

  ghost predicate Increasing(s: Slot) {
    forall i, j :: 0 <= i < j < |s| ==> s[i].serial < s[j].serial
  }

  lemma {:induction false} RetainMembers(s: Slot, keep: Announcement -> bool)
    ensures forall e :: e in Retain(s, keep) <==> e in s && keep(e)
    ensures |Retain(s, keep)| <= |s|
  {
    if s != [] {
      RetainMembers(s[1..], keep);
      assert s == [s[0]] + s[1..];
    }
  }

  lemma {:induction false} RetainIncreasing(s: Slot, keep: Announcement -> bool)
    requires Increasing(s)
    ensures Increasing(Retain(s, keep))
  {
    if s != [] {
      RetainIncreasing(s[1..], keep);
      RetainMembers(s[1..], keep);
      var t := Retain(s[1..], keep);
      forall i | 0 <= i < |t| ensures s[0].serial < t[i].serial {
        assert t[i] in s[1..];
      }
    }
  }

  lemma {:induction false} RetainAll(s: Slot, keep: Announcement -> bool)
    requires forall e :: e in s ==> keep(e)
    ensures Retain(s, keep) == s
  {
    if s != [] {
      RetainAll(s[1..], keep);
      assert s == [s[0]] + s[1..];
    }
  }

  predicate Outranked(s: Slot, a: Announcement) { exists e :: e in s && e.serial > a.serial }

  /** The slot with `a` in its place and everything expired gone, before the size limit is applied. */
  function Placed(s: Slot, a: Announcement, now: U64): Slot {
    Retain(Retain(s, (e: Announcement) => e.serial != a.serial) + [a], (e: Announcement) => e.notAfter > now)
  }

  function Newest(s: Slot): Slot {
    if |s| > MAX_ANNOUNCEMENTS then s[|s| - MAX_ANNOUNCEMENTS..] else s
  }

  function SlotUpsert(s: Slot, a: Announcement, now: U64): Slot {
    if Outranked(s, a) then s else Newest(Placed(s, a, now))
  }

  lemma PlacedFacts(s: Slot, a: Announcement, now: U64)
    requires Increasing(s) && !Outranked(s, a) && a.notAfter > now
    ensures var p := Placed(s, a, now);
      && Increasing(p) && |p| <= |s| + 1
      && (forall e :: e in p <==> e == a || (e in s && e.serial != a.serial && e.notAfter > now))
      && p != [] && p[|p| - 1] == a
  {
    hide Retain;
    var others := Retain(s, (e: Announcement) => e.serial != a.serial);
    OthersFacts(s, a, others);
    var pushed := others + [a];
    RetainMembers(pushed, (e: Announcement) => e.notAfter > now);
    RetainIncreasing(pushed, (e: Announcement) => e.notAfter > now);
    LastIsGreatest(Placed(s, a, now), a);
  }

  lemma OthersFacts(s: Slot, a: Announcement, others: Slot)
    requires Increasing(s) && !Outranked(s, a) && others == Retain(s, (e: Announcement) => e.serial != a.serial)
    ensures Increasing(others + [a]) && |others| <= |s|
    ensures forall e :: e in others + [a] <==> e == a || (e in s && e.serial != a.serial)
    ensures forall e :: e in others + [a] ==> e.serial <= a.serial
  {
    hide Retain;
    RetainMembers(s, (e: Announcement) => e.serial != a.serial);
    RetainIncreasing(s, (e: Announcement) => e.serial != a.serial);
    forall i | 0 <= i < |others| ensures others[i].serial < a.serial {
      assert others[i] in s;
    }
  }

  lemma LastIsGreatest(p: Slot, a: Announcement)
    requires Increasing(p) && a in p && forall e :: e in p ==> e.serial <= a.serial
    ensures p[|p| - 1] == a
  {
  }

  lemma FirstIsOldest(s: Slot, k: nat)
    requires Increasing(s) && k < |s| && forall i :: 0 <= i < |s| ==> s[k].serial <= s[i].serial
    ensures k == 0
  {
    assert s[k].serial <= s[0].serial;
  }

  // ---------------------------------------------------------------- the ring

  type Ring = map<NodeId, Slot>

  function SlotOf(r: Ring, id: NodeId): Slot { if id in r then r[id] else [] }

  predicate Admissible(signed: Signed, a: Announcement, now: U64) { Verifies(signed, a) && a.notAfter > now }

  function RingUpsert(signed: Signed, r: Ring, a: Announcement, now: U64): (Ring, bool) {
    if Admissible(signed, a, now) then (r[a.identity := SlotUpsert(SlotOf(r, a.identity), a, now)], true)
    else (r, false)
  }

  ghost predicate RingOk(signed: Signed, r: Ring) {
    forall id: NodeId :: id in r ==> SlotOk(signed, id, r[id])
  }

  ghost predicate SlotOk(signed: Signed, id: NodeId, s: Slot) {
    && Increasing(s) && 0 < |s| <= MAX_ANNOUNCEMENTS
    && forall e :: e in s ==> e.identity == id && Verifies(signed, e)
  }

  lemma SlotUpsertKeepsOk(signed: Signed, id: NodeId, s: Slot, a: Announcement, now: U64)
    requires s == [] || SlotOk(signed, id, s)
    requires a.identity == id && Admissible(signed, a, now)
    ensures SlotOk(signed, id, SlotUpsert(s, a, now))
  {
    hide Verifies, Placed;
    if !Outranked(s, a) { PlacedFacts(s, a, now); }
  }

  /** `restore`: upserts in order and stops at the first failure. */
  function RestoreAll(signed: Signed, r: Ring, anns: seq<Announcement>, now: U64): (Ring, bool)
    decreases |anns|
  {
    if anns == [] then (r, true) else
      var (r', ok) := RingUpsert(signed, r, anns[0], now);
      if ok then RestoreAll(signed, r', anns[1..], now) else (r', false)
  }

  /** The export of a ring, its identities taken in the given order. */
  function Dump(r: Ring, order: seq<NodeId>): seq<Announcement>
    requires forall id :: id in order ==> id in r
  {
    if order == [] then [] else Dump(r, order[..|order| - 1]) + r[order[|order| - 1]]
  }

  class NodeKeyRing {
    const signed: Signed
    var entries: Ring

    ghost predicate Valid()
      reads this
    {
      RingOk(signed, entries)
    }

    constructor (signed: Signed)
      ensures Valid() && entries == map[] && this.signed == signed
    {
      this.signed := signed;
      entries := map[];
    }

    /** `min_by_key` on the serial. */
    static method OldestIndex(s: Slot) returns (k: nat)
      requires s != []
      ensures k < |s| && forall i :: 0 <= i < |s| ==> s[k].serial <= s[i].serial
    {
      k := 0;
      for i := 1 to |s|
        invariant k < |s| && forall j :: 0 <= j < i ==> s[k].serial <= s[j].serial
      {
        if s[i].serial < s[k].serial { k := i; }
      }
    }

    /** Evicts lowest serials while the slot is too long. */
    static method Trim(s: Slot, a: Announcement) returns (r: Slot)
      requires Increasing(s) && s != [] && s[|s| - 1] == a
      ensures r == Newest(s)
    {
      r := s;
      ghost var d := 0;
      while |r| > MAX_ANNOUNCEMENTS
        invariant d <= |s| && r == s[d..]
        invariant d == 0 || |r| >= MAX_ANNOUNCEMENTS
        decreases |r|
      {
        var k := OldestIndex(r);
        FirstIsOldest(r, k);
        if r[k].serial < a.serial {
          r := r[..k] + r[k + 1..];
          d := d + 1;
        } else {
          break;
        }
      }
    }

    static method Place(s: Slot, a: Announcement, now: U64) returns (slot: Slot)
      requires Increasing(s) && !Outranked(s, a) && a.notAfter > now
      ensures slot == Newest(Placed(s, a, now))
    {
      PlacedFacts(s, a, now);
      slot := Retain(s, (e: Announcement) => e.serial != a.serial);
      slot := slot + [a];
      slot := Retain(slot, (e: Announcement) => e.notAfter > now);
      slot := Trim(slot, a);
    }

    method Upsert(a: Announcement, now: U64) returns (r: Result<()>)
      requires Valid()
      modifies this
      ensures Valid()
      ensures (entries, r.Ok?) == RingUpsert(signed, old(entries), a, now)
    {
      hide Verifies, Placed, Newest, Increasing;
      if !Verifies(signed, a) {
        return Err;
      }
      if a.notAfter <= now {
        return Err;
      }
      var slot := if a.identity in entries then entries[a.identity] else [];
      SlotUpsertKeepsOk(signed, a.identity, slot, a, now);
      if exists e :: e in slot && e.serial > a.serial {
        entries := entries[a.identity := slot];
        return Ok(());
      }
      slot := Place(slot, a, now);
      entries := entries[a.identity := slot];
      return Ok(());
    }

    /** The valid announcement with the highest serial, if any is valid. */
    method Current(identity: NodeId, now: U64) returns (r: Option<NodeId>)
      ensures r.Some? ==> exists e :: Leads(SlotOf(entries, identity), now, e) && r.value == e.nodeKey
      ensures r.None? <==> forall e :: e in SlotOf(entries, identity) ==> !ValidAt(e, now)
    {
      r := None;
      var slot := if identity in entries then entries[identity] else [];
      ghost var best: Option<Announcement> := None;
      var serial := 0;
      for i := 0 to |slot|
        invariant r.Some? == best.Some?
        invariant r.None? ==> forall e :: e in slot[..i] ==> !ValidAt(e, now)
        invariant r.Some? ==>
          Leads(slot[..i], now, best.value) && r.value == best.value.nodeKey && serial == best.value.serial
      {
        assert slot[..i + 1] == slot[..i] + [slot[i]];
        if ValidAt(slot[i], now) && (r.None? || slot[i].serial >= serial) {
          r, serial := Some(slot[i].nodeKey), slot[i].serial;
          best := Some(slot[i]);
        }
      }
      assert slot[..|slot|] == slot;
    }

    method Accepts(identity: NodeId, nodeKey: NodeId, now: U64) returns (yes: bool)
      ensures yes <==> exists e :: e in SlotOf(entries, identity) && e.nodeKey == nodeKey && ValidAt(e, now)
    {
      var slot := if identity in entries then entries[identity] else [];
      yes := exists e :: e in slot && e.nodeKey == nodeKey && e.notBefore <= now && e.notAfter > now;
    }

    /** Exports the slots in whatever order the map yields the identities. */
    method Export() returns (anns: seq<Announcement>)
      ensures exists order :: IsOrder(entries, order) && anns == Dump(entries, order)
    {
      anns := [];
      ghost var order: seq<NodeId> := [];
      var rest := entries.Keys;
      while rest != {}
        invariant rest <= entries.Keys
        invariant Distinct(order) && forall id :: id in order <==> id in entries && id !in rest
        invariant anns == Dump(entries, order)
        decreases rest
      {
        var id :| id in rest;
        anns := anns + entries[id];
        ghost var next := order + [id];
        assert next[..|order|] == order;
        order := next;
        rest := rest - {id};
      }
      assert IsOrder(entries, order);
    }

    method Restore(anns: seq<Announcement>, now: U64) returns (r: Result<()>)
      requires Valid()
      modifies this
      ensures Valid()
      ensures (entries, r.Ok?) == RestoreAll(signed, old(entries), anns, now)
    {
      for i := 0 to |anns|
        invariant Valid()
        invariant RestoreAll(signed, old(entries), anns, now) == RestoreAll(signed, entries, anns[i..], now)
      {
        assert anns[i..][1..] == anns[i + 1..];
        var ok := Upsert(anns[i], now);
        if ok.Err? {
          return Err;
        }
      }
      return Ok(());
    }
  }

  ghost predicate Leads(s: Slot, now: U64, e: Announcement) {
    e in s && ValidAt(e, now) && forall f :: f in s && ValidAt(f, now) ==> f.serial <= e.serial
  }

  ghost predicate Distinct(order: seq<NodeId>) {
    forall i, j :: 0 <= i < j < |order| ==> order[i] != order[j]
  }

  ghost predicate IsOrder(r: Ring, order: seq<NodeId>) {
    Distinct(order) && forall id :: id in order <==> id in r
  }
}
