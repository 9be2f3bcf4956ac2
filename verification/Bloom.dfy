/**
 * Friend matching over Bluetooth advertisements (android/.../friendlink/FriendLink.kt): a Bloom filter
 * of the friends' current slot ids, padded so that its weight does not tell how many friends there are.
 */
module Bloom {
  import opened Common
  import opened Payloads

  type Bytes = seq<Byte>

  const SLOTS_PER_DAY := 144
  const BLOOM_BITS := 1024
  const BLOOM_BYTES := 128
  const HASHES := 7
  const CAP_FRIENDS := 100
  const TARGET := HASHES * CAP_FRIENDS
  const ID_LEN := 4

  /** SHA-256, and HKDF-SHA256 as (key material, info, output length). */
  datatype Crypto = Crypto(sha256: Bytes -> Bytes32, hkdf: (Bytes, Bytes, nat) -> Bytes)

  // ---------------------------------------------------------------- slot ids and bit positions

  function Unsigned64(v: int): nat { v % 0x1_0000_0000_0000_0000 }

  /** Eight bytes, least significant first, of a 64-bit two's complement number. */
  function Le8(v: int): Bytes { LittleEndian(Unsigned64(v), 8) }

  function LittleEndian(v: nat, n: nat): Bytes { if n == 0 then [] else [v % 256] + LittleEndian(v / 256, n - 1) }

  /** Kotlin's `slot / 144`, which rounds toward zero. */
  function DayOf(slot: int): int { if slot >= 0 then slot / SLOTS_PER_DAY else -((0 - slot) / SLOTS_PER_DAY) }

  function DayKey(c: Crypto, secret: Bytes, slot: int): Bytes {
    c.hkdf(secret, Ascii("dc-link-day-v1") + Le8(DayOf(slot)), 32)
  }

  function SlotId(c: Crypto, secret: Bytes, slot: int): Bytes {
    c.hkdf(DayKey(c, secret, slot), Ascii("dc-link-slot-v1") + Le8(slot), ID_LEN)
  }

  type Position = i: int | 0 <= i < BLOOM_BITS

  function BitIndex(c: Crypto, id: Bytes, j: Byte): Position {
    var h := c.sha256(id + [j]);
    ((h[0] as int) * 65536 + (h[1] as int) * 256 + h[2]) % BLOOM_BITS
  }

  function BitIndices(c: Crypto, id: Bytes): (r: seq<Position>)
    ensures |r| == HASHES
  {
    seq(HASHES, j requires 0 <= j < HASHES => BitIndex(c, id, j))
  }

  /** A position is the low ten bits of the three leading bytes of the hash. */
  lemma BitIndexIsLowBits(c: Crypto, id: Bytes, j: Byte)
    ensures var h := c.sha256(id + [j]); BitIndex(c, id, j) == (h[1] as int % 4) * 256 + h[2] as int
  {
    var h := c.sha256(id + [j]);
    var low := (h[1] as int % 4) * 256 + h[2] as int;
    assert (h[0] as int) * 65536 + (h[1] as int) * 256 + h[2] as int ==
      1024 * (64 * h[0] as int + h[1] as int / 4) + low;
  }

  function FromLittleEndian(s: Bytes): nat {
    if s == [] then 0 else s[0] as int + 256 * FromLittleEndian(s[1..])
  }

  lemma {:induction false} LittleEndianValue(v: nat, n: nat, bound: nat)
    requires v < bound && bound <= Pow256(n)
    ensures |LittleEndian(v, n)| == n && FromLittleEndian(LittleEndian(v, n)) == v
  {
    if n > 0 {
      LittleEndianValue(v / 256, n - 1, Pow256(n - 1));
      assert LittleEndian(v, n)[1..] == LittleEndian(v / 256, n - 1);
    }
  }

  /** Eight bytes, least significant first, that tell all 64-bit numbers apart. */
  lemma Le8Value(v: I64)
    ensures |Le8(v)| == 8
    ensures FromLittleEndian(Le8(v)) == if v >= 0 then v else v + 0x1_0000_0000_0000_0000
  {
    assert Pow256(8) == 0x1_0000_0000_0000_0000;
    LittleEndianValue(Unsigned64(v), 8, Pow256(8));
  }

  /** Slots are grouped in days of 144, counted toward zero. */
  lemma DayOfMeaning(day: int, slot: int)
    requires (day >= 0 && 144 * day <= slot < 144 * (day + 1)) || (day <= 0 && 144 * (day - 1) < slot <= 144 * day)
    ensures DayOf(slot) == day
  {
  }

  /** Within a day the id depends on the secret through the key of that day alone. */
  lemma DayKeySuffices(c: Crypto, one: Bytes, two: Bytes, day: nat, slot: int)
    requires 144 * day <= slot < 144 * (day + 1)
    requires var info := Ascii("dc-link-day-v1") + Le8(day); c.hkdf(one, info, 32) == c.hkdf(two, info, 32)
    ensures SlotId(c, one, slot) == SlotId(c, two, slot)
  {
    DayOfMeaning(day, slot);
  }

  /** A friend's ids of different slots differ, unless the key derivation collides on the two. */
  lemma {:induction false} SlotIdsDiffer(c: Crypto, secret: Bytes, a: I64, b: I64)
    requires var (k, l) := (DayKey(c, secret, a), DayKey(c, secret, b));
      var (x, y) := (Ascii("dc-link-slot-v1") + Le8(a), Ascii("dc-link-slot-v1") + Le8(b));
      c.hkdf(k, x, 4) == c.hkdf(l, y, 4) ==> k == l && x == y
    ensures SlotId(c, secret, a) == SlotId(c, secret, b) ==> a == b
  {
    if SlotId(c, secret, a) == SlotId(c, secret, b) {
      var head := Ascii("dc-link-slot-v1");
      var x, y := head + Le8(a), head + Le8(b);
      assert x == y;
      assert x[|head|..] == Le8(a) && y[|head|..] == Le8(b);
      Le8Value(a);
      Le8Value(b);
    }
  }

  // ---------------------------------------------------------------- weight

  function Weight(s: seq<bool>): nat {
    if s == [] then 0 else Weight(s[..|s| - 1]) + (if s[|s| - 1] then 1 else 0)
  }

  lemma {:induction false} WeightUpdate(s: seq<bool>, i: nat)
    requires i < |s|
    ensures Weight(s[i := true]) == Weight(s) + (if s[i] then 0 else 1)
  {
    var n := |s| - 1;
    if i < n {
      assert s[i := true][..n] == s[..n][i := true];
      WeightUpdate(s[..n], i);
    } else {
      assert s[i := true][..n] == s[..n];
    }
  }

  lemma {:induction false} WeightOfNone(s: seq<bool>)
    requires forall i :: 0 <= i < |s| ==> !s[i]
    ensures Weight(s) == 0
  {
    if s != [] { WeightOfNone(s[..|s| - 1]); }
  }

  // ---------------------------------------------------------------- the packed form

  type Place = k: int | 0 <= k < 8

  function Bit(b: bv8, k: Place): bool { (b >> k) & 1 == 1 }

  function SetBit(b: bv8, k: Place): bv8 { b | (1 << k) }

  function Mask(k: Place): bv8 {
    if k == 0 then 1 else if k == 1 then 2 else if k == 2 then 4 else if k == 3 then 8
    else if k == 4 then 16 else if k == 5 then 32 else if k == 6 then 64 else 128
  }

  lemma ShiftIsMask(k: Place)
    ensures (1 as bv8) << k == Mask(k)
  {
    if k == 0 {} else if k == 1 {} else if k == 2 {} else if k == 3 {}
    else if k == 4 {} else if k == 5 {} else if k == 6 {}
  }

  lemma BitIsMasked(b: bv8, k: Place)
    ensures Bit(b, k) == (b & Mask(k) != 0)
  {
    if k == 0 {} else if k == 1 {} else if k == 2 {} else if k == 3 {}
    else if k == 4 {} else if k == 5 {} else if k == 6 {}
  }

  lemma MaskedOr(b: bv8, k: Place, j: Place)
    ensures ((b | Mask(k)) & Mask(j) != 0) == (j == k || b & Mask(j) != 0)
  {
  }

  lemma SetBitBit(b: bv8, k: Place, j: Place)
    ensures Bit(SetBit(b, k), j) == (j == k || Bit(b, j))
  {
    ShiftIsMask(k);
    hide Mask, Bit;
    BitIsMasked(SetBit(b, k), j);
    BitIsMasked(b, j);
    MaskedOr(b, k, j);
  }

  lemma ZeroBit(j: Place)
    ensures !Bit(0, j)
  {
  }

  predicate BitAt(bloom: seq<bv8>, i: Position)
    requires |bloom| == BLOOM_BYTES
  {
    Bit(bloom[i / 8], i % 8)
  }

  /** The filter as booleans again. */
  function Unpacked(bloom: seq<bv8>): (r: seq<bool>)
    requires |bloom| == BLOOM_BYTES
    ensures |r| == BLOOM_BITS
  {
    seq(BLOOM_BITS, i requires 0 <= i < BLOOM_BITS => BitAt(bloom, i))
  }

  /** Packing agrees bit for bit with the boolean array. */
  method Pack(bits: array<bool>) returns (out: seq<bv8>)
    requires bits.Length == BLOOM_BITS
    ensures |out| == BLOOM_BYTES && Unpacked(out) == bits[..]
  {
    out := seq(BLOOM_BYTES, _ => 0);
    forall j: Place ensures !Bit(0, j) { ZeroBit(j); }
    for i := 0 to BLOOM_BITS
      invariant |out| == BLOOM_BYTES
      invariant forall k: Position :: BitAt(out, k) == (k < i && bits[k])
    {
      hide Bit, SetBit;
      if bits[i] {
        ghost var before := out;
        out := out[i / 8 := SetBit(out[i / 8], i % 8)];
        forall k: Position ensures BitAt(out, k) == (k < i + 1 && bits[k]) {
          if k / 8 == i / 8 {
            SetBitBit(before[i / 8], i % 8, k % 8);
          }
          assert BitAt(before, k) == (k < i && bits[k]);
        }
      }
    }
  }

  // ---------------------------------------------------------------- building the filter

  /** Sets the seven bits of an id; clears none, and adds at most seven. */
  method AddId(c: Crypto, bits: array<bool>, id: Bytes)
    requires bits.Length == BLOOM_BITS
    modifies bits
    ensures forall i :: 0 <= i < BLOOM_BITS ==> bits[i] == (old(bits[i]) || i in BitIndices(c, id))
    ensures old(Weight(bits[..])) <= Weight(bits[..]) <= old(Weight(bits[..])) + HASHES
  {
    var idx := BitIndices(c, id);
    for j := 0 to HASHES
      invariant forall i :: 0 <= i < BLOOM_BITS ==> bits[i] == (old(bits[i]) || i in idx[..j])
      invariant old(Weight(bits[..])) <= Weight(bits[..]) <= old(Weight(bits[..])) + j
    {
      hide BitIndices;
      ghost var before := bits[..];
      assert idx[..j + 1] == idx[..j] + [idx[j]];
      WeightUpdate(before, idx[j]);
      bits[idx[j]] := true;
      assert bits[..] == before[idx[j] := true];
    }
    assert idx[..HASHES] == idx;
  }

  predicate Hit(c: Crypto, bloom: seq<bv8>, id: Bytes)
    requires |bloom| == BLOOM_BYTES
  {
    forall i :: i in BitIndices(c, id) ==> BitAt(bloom, i)
  }

  /** Kotlin's `Int` counter. */
  function Wrap32(x: int): int { (x + 0x8000_0000) % 0x1_0000_0000 - 0x8000_0000 }

  /** The `k`-th padding id: first out of the random bytes, then out of their counted hashes. */
  function PadId(c: Crypto, padRnd: Bytes, k: nat): Bytes {
    if ID_LEN * k + ID_LEN <= |padRnd| then padRnd[ID_LEN * k..ID_LEN * k + ID_LEN]
    else c.sha256(padRnd + Le8(Wrap32(k - |padRnd| / ID_LEN)))[..ID_LEN]
  }

  ghost function FriendIds(c: Crypto, secrets: seq<Bytes>, slot: int): seq<Bytes> {
    seq(|secrets|, i requires 0 <= i < |secrets| => SlotId(c, secrets[i], slot))
  }

  ghost function PadIds(c: Crypto, padRnd: Bytes, k: nat): seq<Bytes> {
    seq(k, i requires 0 <= i < k => PadId(c, padRnd, i))
  }

  /** All ids added after `k` rounds of padding. */
  ghost function Ids(c: Crypto, secrets: seq<Bytes>, slot: int, padRnd: Bytes, k: nat): seq<Bytes> {
    FriendIds(c, secrets, slot) + PadIds(c, padRnd, k)
  }

  ghost predicate MarkedBy(c: Crypto, ids: seq<Bytes>, i: int) {
    exists id :: id in ids && i in BitIndices(c, id)
  }

  /** The filter that holds exactly the bits of `ids`. */
  ghost function Marks(c: Crypto, ids: seq<Bytes>): (r: seq<bool>)
    ensures |r| == BLOOM_BITS
  {
    seq(BLOOM_BITS, i requires 0 <= i < BLOOM_BITS => MarkedBy(c, ids, i))
  }

  lemma MarksExtend(c: Crypto, ids: seq<Bytes>, id: Bytes, bits: seq<bool>)
    requires |bits| == BLOOM_BITS
    requires forall i :: 0 <= i < BLOOM_BITS ==> bits[i] == (Marks(c, ids)[i] || i in BitIndices(c, id))
    ensures bits == Marks(c, ids + [id])
  {
    hide BitIndices;
    forall i | 0 <= i < BLOOM_BITS ensures bits[i] == MarkedBy(c, ids + [id], i) {
      assert bits[i] == (MarkedBy(c, ids, i) || i in BitIndices(c, id));
      assert forall x :: x in ids + [id] <==> x in ids || x == id;
    }
  }

  lemma MarksDependOnSet(c: Crypto, some: seq<Bytes>, all: seq<Bytes>)
    requires forall id :: id in some <==> id in all
    ensures Marks(c, some) == Marks(c, all)
  {
    hide BitIndices;
    assert forall i :: MarkedBy(c, some, i) <==> MarkedBy(c, all, i);
  }

  ghost function PaddedWeight(c: Crypto, secrets: seq<Bytes>, slot: int, padRnd: Bytes, k: nat): nat {
    Weight(Marks(c, Ids(c, secrets, slot, padRnd, k)))
  }

  /** After this many rounds the padding ids repeat. */
  function Rounds(padRnd: Bytes): nat { |padRnd| / ID_LEN + 0x1_0000_0000 }

  lemma WrapRepeats(x: nat)
    ensures Wrap32(x % 0x1_0000_0000) == Wrap32(x)
  {
    var q, y := x / 0x1_0000_0000, x % 0x1_0000_0000;
    assert x == q * 0x1_0000_0000 + y;
  }

  lemma PadIdRepeats(c: Crypto, padRnd: Bytes, k: nat) returns (early: nat)
    ensures early < Rounds(padRnd) && PadId(c, padRnd, early) == PadId(c, padRnd, k)
  {
    var p := |padRnd| / ID_LEN;
    if k < p {
      early := k;
    } else {
      early := p + (k - p) % 0x1_0000_0000;
      WrapRepeats(k - p);
      hide Wrap32;
      assert ID_LEN * k + ID_LEN > |padRnd| && ID_LEN * early + ID_LEN > |padRnd|;
    }
  }

  /** So a filter that has not reached the target by then never does. */
  lemma PaddingStalls(c: Crypto, secrets: seq<Bytes>, slot: int, padRnd: Bytes, k: nat)
    requires k >= Rounds(padRnd)
    ensures PaddedWeight(c, secrets, slot, padRnd, k) == PaddedWeight(c, secrets, slot, padRnd, Rounds(padRnd))
  {
    hide Weight, Marks, PadId, SlotId, Rounds;
    var friends, n := FriendIds(c, secrets, slot), Rounds(padRnd);
    var some, all := PadIds(c, padRnd, n), PadIds(c, padRnd, k);
    assert some == all[..n];
    forall id | id in all ensures id in some {
      var j :| 0 <= j < k && all[j] == id;
      var early := PadIdRepeats(c, padRnd, j);
      assert some[early] == id;
    }
    assert forall id :: id in friends + some <==> id in friends + all;
    MarksDependOnSet(c, friends + some, friends + all);
  }

  lemma NeverReached(c: Crypto, secrets: seq<Bytes>, slot: int, padRnd: Bytes)
    requires forall j: nat :: j <= Rounds(padRnd) ==> PaddedWeight(c, secrets, slot, padRnd, j) < TARGET
    ensures forall j: nat :: PaddedWeight(c, secrets, slot, padRnd, j) < TARGET
  {
    hide PaddedWeight;
    forall j: nat | j > Rounds(padRnd) ensures PaddedWeight(c, secrets, slot, padRnd, j) < TARGET {
      PaddingStalls(c, secrets, slot, padRnd, j);
    }
  }

  /** Where the padding stands after `k` rounds. */
  ghost predicate Cursor(padRnd: Bytes, k: nat, off: int, round: int) {
    off == ID_LEN * Min(k, |padRnd| / ID_LEN) && round == Wrap32(Max(k - |padRnd| / ID_LEN, 0))
  }

  method NextPad(c: Crypto, padRnd: Bytes, off: nat, round: int, ghost k: nat)
    returns (id: Bytes, off': nat, round': int)
    requires Cursor(padRnd, k, off, round)
    ensures id == PadId(c, padRnd, k) && Cursor(padRnd, k + 1, off', round')
  {
    hide Le8;
    off', round' := off, round;
    if off + ID_LEN <= |padRnd| {
      id := padRnd[off..off + ID_LEN];
      off' := off + ID_LEN;
    } else {
      id := c.sha256(padRnd + Le8(round))[..ID_LEN];
      round' := Wrap32(round + 1);
    }
  }

  lemma IdsExtend(c: Crypto, secrets: seq<Bytes>, slot: int, padRnd: Bytes, k: nat)
    ensures Ids(c, secrets, slot, padRnd, k + 1) == Ids(c, secrets, slot, padRnd, k) + [PadId(c, padRnd, k)]
  {
    hide SlotId, PadId;
  }

  lemma CursorAtStart(padRnd: Bytes)
    ensures Cursor(padRnd, 0, 0, 0)
  {
  }

  /** The first round of padding at which the weight reaches the target. */
  ghost predicate Reaches(c: Crypto, secrets: seq<Bytes>, slot: int, padRnd: Bytes, k: nat) {
    && PaddedWeight(c, secrets, slot, padRnd, k) >= TARGET
    && forall j: nat :: j < k ==> PaddedWeight(c, secrets, slot, padRnd, j) < TARGET
  }

  /** The bits of the friends' ids alone. */
  method AddFriends(c: Crypto, bits: array<bool>, secrets: seq<Bytes>, slot: int, ghost padRnd: Bytes)
    requires bits.Length == BLOOM_BITS && forall i :: 0 <= i < BLOOM_BITS ==> !bits[i]
    modifies bits
    ensures bits[..] == Marks(c, Ids(c, secrets, slot, padRnd, 0))
    ensures Weight(bits[..]) <= HASHES * |secrets|
  {
    hide SlotId, Weight, BitIndices;
    WeightOfNone(bits[..]);
    assert bits[..] == Marks(c, Ids(c, [], slot, padRnd, 0));
    for n := 0 to |secrets|
      invariant bits[..] == Marks(c, Ids(c, secrets[..n], slot, padRnd, 0))
      invariant Weight(bits[..]) <= HASHES * n
    {
      AddId(c, bits, SlotId(c, secrets[n], slot));
      MarksExtend(c, Ids(c, secrets[..n], slot, padRnd, 0), SlotId(c, secrets[n], slot), bits[..]);
      assert Ids(c, secrets[..n + 1], slot, padRnd, 0) ==
        Ids(c, secrets[..n], slot, padRnd, 0) + [SlotId(c, secrets[n], slot)];
    }
    assert secrets[..|secrets|] == secrets;
  }

  /**
   * The filter broadcast in a slot: exactly the bits of the friends' ids and of as many padding ids as it takes
   * to reach the target. `None` stands for the padding loop that never ends: the hashes hit too few positions.
   */
  method BuildBloom(c: Crypto, secrets: seq<Bytes>, slot: int, padRnd: Bytes) returns (r: Option<seq<bv8>>)
    requires |secrets| <= CAP_FRIENDS
    ensures r.None? <==> forall k: nat :: PaddedWeight(c, secrets, slot, padRnd, k) < TARGET
    ensures r.Some? ==> |r.value| == BLOOM_BYTES && TARGET <= Weight(Unpacked(r.value)) < TARGET + HASHES
    ensures r.Some? ==> forall s :: s in secrets ==> Hit(c, r.value, SlotId(c, s, slot))
    ensures r.Some? ==> exists k: nat ::
      Reaches(c, secrets, slot, padRnd, k) && Unpacked(r.value) == Marks(c, Ids(c, secrets, slot, padRnd, k))
  {
    hide SlotId, Weight, BitIndices, Marks, Ids, PadId, Cursor;
    var bits := new bool[BLOOM_BITS](_ => false);
    AddFriends(c, bits, secrets, slot, padRnd);
    var off: nat, round, left := 0, 0, Rounds(padRnd);
    ghost var k: nat := 0;
    CursorAtStart(padRnd);
    while Weight(bits[..]) < TARGET
      invariant k + left == Rounds(padRnd) && Cursor(padRnd, k, off, round)
      invariant bits[..] == Marks(c, Ids(c, secrets, slot, padRnd, k)) && Weight(bits[..]) < TARGET + HASHES
      invariant forall j: nat :: j < k ==> PaddedWeight(c, secrets, slot, padRnd, j) < TARGET
      decreases left
    {
      if left == 0 {
        NeverReached(c, secrets, slot, padRnd);
        return None;
      }
      left := left - 1;
      var id;
      id, off, round := NextPad(c, padRnd, off, round, k);
      AddId(c, bits, id);
      MarksExtend(c, Ids(c, secrets, slot, padRnd, k), id, bits[..]);
      IdsExtend(c, secrets, slot, padRnd, k);
      k := k + 1;
    }
    var out := Pack(bits);
    assert Reaches(c, secrets, slot, padRnd, k);
    forall s | s in secrets ensures Hit(c, out, SlotId(c, s, slot)) {
      FriendsHit(c, secrets, slot, padRnd, k, out, s);
    }
    r := Some(out);
  }

  lemma FriendsHit(c: Crypto, secrets: seq<Bytes>, slot: int, padRnd: Bytes, k: nat, bloom: seq<bv8>, secret: Bytes)
    requires |bloom| == BLOOM_BYTES && Unpacked(bloom) == Marks(c, Ids(c, secrets, slot, padRnd, k))
    requires secret in secrets
    ensures Hit(c, bloom, SlotId(c, secret, slot))
  {
    hide BitIndices, SlotId, PadId;
    var ids, id := Ids(c, secrets, slot, padRnd, k), SlotId(c, secret, slot);
    var n :| 0 <= n < |secrets| && secrets[n] == secret;
    assert ids[n] == id;
    forall i | i in BitIndices(c, id) ensures BitAt(bloom, i) {
      assert 0 <= i < BLOOM_BITS;
      assert Unpacked(bloom)[i] == BitAt(bloom, i) && Marks(c, ids)[i] == MarkedBy(c, ids, i);
    }
  }

  // ---------------------------------------------------------------- scanning

  /** The id under which a friend may be in the filter: this slot's first, then the previous slot's. */
  function Candidate(c: Crypto, bloom: seq<bv8>, secret: Bytes, slot: int): Option<Bytes>
    requires |bloom| == BLOOM_BYTES
  {
    if Hit(c, bloom, SlotId(c, secret, slot)) then Some(SlotId(c, secret, slot))
    else if Hit(c, bloom, SlotId(c, secret, slot - 1)) then Some(SlotId(c, secret, slot - 1))
    else None
  }

  /** That is: the id of this slot if all its seven bits are set, else that of the slot before if all its are. */
  lemma {:induction false} CandidateIff(c: Crypto, bloom: seq<bv8>, secret: Bytes, slot: int, id: Bytes)
    requires |bloom| == BLOOM_BYTES
    ensures Candidate(c, bloom, secret, slot) == Some(id) <==> (
      var (current, earlier) := (SlotId(c, secret, slot), SlotId(c, secret, slot - 1));
      || (id == current && AllSet(c, bloom, current))
      || (id == earlier && AllSet(c, bloom, earlier) && !AllSet(c, bloom, current)))
  {
    hide SlotId;
    HitIff(c, bloom, SlotId(c, secret, slot));
    HitIff(c, bloom, SlotId(c, secret, slot - 1));
    hide Hit, AllSet;
  }

  ghost predicate AllSet(c: Crypto, bloom: seq<bv8>, id: Bytes)
    requires |bloom| == BLOOM_BYTES
  {
    forall j: Byte :: j < 7 ==> BitAt(bloom, BitIndex(c, id, j))
  }

  lemma HitIff(c: Crypto, bloom: seq<bv8>, id: Bytes)
    requires |bloom| == BLOOM_BYTES
    ensures Hit(c, bloom, id) <==> AllSet(c, bloom, id)
  {
    hide BitAt, BitIndex;
    var idx := BitIndices(c, id);
    assert forall j: Byte :: j < 7 ==> idx[j] == BitIndex(c, id, j) && idx[j] in idx;
    if AllSet(c, bloom, id) {
      forall i | i in idx ensures BitAt(bloom, i) {
        var j :| 0 <= j < 7 && idx[j] == i;
        assert BitAt(bloom, BitIndex(c, id, j));
      }
    }
  }

  function Candidates(c: Crypto, bloom: seq<bv8>, secrets: seq<Bytes>, slot: int): seq<(nat, Bytes)>
    requires |bloom| == BLOOM_BYTES
  {
    if secrets == [] then [] else
      var n := |secrets| - 1;
      Candidates(c, bloom, secrets[..n], slot) +
      match Candidate(c, bloom, secrets[n], slot) case Some(id) => [(n, id)] case None => []
  }

  ghost predicate Ordered(r: seq<(nat, Bytes)>) {
    forall a, b :: 0 <= a < b < |r| ==> r[a].0 < r[b].0
  }

  /** Exactly the friends with a hit are listed, each once, in order, with the id that hit. */
  lemma {:induction false} CandidatesAreExact(c: Crypto, bloom: seq<bv8>, secrets: seq<Bytes>, slot: int)
    requires |bloom| == BLOOM_BYTES
    ensures forall i: nat, id: Bytes :: (i, id) in Candidates(c, bloom, secrets, slot) <==>
      i < |secrets| && Candidate(c, bloom, secrets[i], slot) == Some(id)
    ensures Ordered(Candidates(c, bloom, secrets, slot))
  {
    hide Candidate;
    if secrets != [] {
      var n := |secrets| - 1;
      CandidatesAreExact(c, bloom, secrets[..n], slot);
      var before, r := Candidates(c, bloom, secrets[..n], slot), Candidates(c, bloom, secrets, slot);
      forall x | x in before ensures x.0 < n {
        assert x == (x.0, x.1);
      }
      forall i: nat, id: Bytes
        ensures (i, id) in r <==> i < |secrets| && Candidate(c, bloom, secrets[i], slot) == Some(id)
      {
        assert (i, id) in r <==> (i, id) in before || (i == n && Candidate(c, bloom, secrets[n], slot) == Some(id));
        assert i < n ==> secrets[..n][i] == secrets[i];
      }
    }
  }

  /** No false negatives: a filter that holds a friend's id of one slot shows that friend in it and in the next. */
  lemma FriendIsFound(c: Crypto, bloom: seq<bv8>, secrets: seq<Bytes>, i: nat, slot: int, at: int)
    requires |bloom| == BLOOM_BYTES && i < |secrets| && Hit(c, bloom, SlotId(c, secrets[i], slot))
    requires at == slot || at == slot + 1
    ensures exists id :: (i, id) in Candidates(c, bloom, secrets, at) && Hit(c, bloom, id)
  {
    hide SlotId, Hit;
    CandidatesAreExact(c, bloom, secrets, at);
    var found := Candidate(c, bloom, secrets[i], at);
    assert (i, found.value) in Candidates(c, bloom, secrets, at);
  }
}
