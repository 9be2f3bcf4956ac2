/**
 * The byte strings that are signed, hashed or MACed, and the proof that each one determines
 * the fields it was built from. The signature, MAC and hash functions stay abstract parameters.
 */
module Payloads {
  import opened Common

  const U32_MAX := 0xFFFF_FFFF
  type U32 = x: int | 0 <= x <= U32_MAX

  // ---------------------------------------------------------------- building blocks

  /** `to_be_bytes` of an unsigned integer of `n` bytes. */
  function BigEndian(v: nat, n: nat): (r: seq<Byte>)
    ensures |r| == n
  {
    if n == 0 then [] else BigEndian(v / 256, n - 1) + [v % 256]
  }

  function FromBigEndian(s: seq<Byte>): nat {
    if s == [] then 0 else 256 * FromBigEndian(s[..|s| - 1]) + s[|s| - 1]
  }

  function Pow256(n: nat): nat { if n == 0 then 1 else 256 * Pow256(n - 1) }

  lemma {:induction false} BigEndianRoundTrip(v: nat, n: nat)
    requires v < Pow256(n)
    ensures FromBigEndian(BigEndian(v, n)) == v
  {
    if n > 0 {
      BigEndianRoundTrip(v / 256, n - 1);
      assert BigEndian(v, n)[..n - 1] == BigEndian(v / 256, n - 1);
    }
  }

  lemma Pow256Values()
    ensures Pow256(2) == 0x1_0000 && Pow256(4) == 0x1_0000_0000 && Pow256(8) == 0x1_0000_0000_0000_0000
  {
  }

  /** Equal fixed-width fields followed by equal tails. */
  lemma PeelBytes(a: seq<Byte>, x: seq<Byte>, b: seq<Byte>, y: seq<Byte>)
    requires |a| == |b| && a + x == b + y
    ensures a == b && x == y
  {
    assert a == (a + x)[..|a|] && b == (b + y)[..|b|];
    assert x == (a + x)[|a|..] && y == (b + y)[|b|..];
  }

  lemma PeelU64(v: U64, x: seq<Byte>, w: U64, y: seq<Byte>)
    requires BigEndian(v, 8) + x == BigEndian(w, 8) + y
    ensures v == w && x == y
  {
    PeelBytes(BigEndian(v, 8), x, BigEndian(w, 8), y);
    Pow256Values();
    BigEndianRoundTrip(v, 8);
    BigEndianRoundTrip(w, 8);
  }

  lemma PeelU32(v: U32, x: seq<Byte>, w: U32, y: seq<Byte>)
    requires BigEndian(v, 4) + x == BigEndian(w, 4) + y
    ensures v == w && x == y
  {
    PeelBytes(BigEndian(v, 4), x, BigEndian(w, 4), y);
    Pow256Values();
    BigEndianRoundTrip(v, 4);
    BigEndianRoundTrip(w, 4);
  }

  lemma PeelByte(v: Byte, x: seq<Byte>, w: Byte, y: seq<Byte>)
    requires [v] + x == [w] + y
    ensures v == w && x == y
  {
    PeelBytes([v], x, [w], y);
  }

  // ---------------------------------------------------------------- relay tickets

  datatype RelayTicket = RelayTicket(
    dest: NodeId, origin: NodeId, issuedAt: U64, expiry: U64, nonce: Bytes16, challenge: Bytes32, sig: seq<Byte>)

  function TicketPayload(t: RelayTicket): seq<Byte> {
    Ascii("dc-relay-ticket-v1\n")
    + (t.dest + (t.origin + (BigEndian(t.issuedAt, 8) + (BigEndian(t.expiry, 8) + (t.nonce + t.challenge)))))
  }

  /** The signed string fixes every field of a ticket but the signature. */
  lemma TicketPayloadIsInjective(t: RelayTicket, u: RelayTicket)
    requires TicketPayload(t) == TicketPayload(u)
    ensures t.(sig := []) == u.(sig := [])
  {
    var t4, u4 := t.nonce + t.challenge, u.nonce + u.challenge;
    var t3, u3 := BigEndian(t.expiry, 8) + t4, BigEndian(u.expiry, 8) + u4;
    var t2, u2 := BigEndian(t.issuedAt, 8) + t3, BigEndian(u.issuedAt, 8) + u3;
    PeelBytes(Ascii("dc-relay-ticket-v1\n"), t.dest + (t.origin + t2),
              Ascii("dc-relay-ticket-v1\n"), u.dest + (u.origin + u2));
    PeelBytes(t.dest, t.origin + t2, u.dest, u.origin + u2);
    PeelBytes(t.origin, t2, u.origin, u2);
    PeelU64(t.issuedAt, t3, u.issuedAt, u3);
    PeelU64(t.expiry, t4, u.expiry, u4);
    PeelBytes(t.nonce, t.challenge, u.nonce, u.challenge);
  }

  /** The hashed string of `fingerprint1024`: a count, then every part behind its length. */
  function FingerprintInput(parts: seq<seq<Byte>>): seq<Byte> {
    Ascii("dc-fingerprint-v1") + (BigEndian(|parts|, 4) + FramedParts(parts))
  }

  function FramedParts(parts: seq<seq<Byte>>): seq<Byte> {
    if parts == [] then [] else BigEndian(|parts[0]|, 8) + (parts[0] + FramedParts(parts[1..]))
  }

  lemma {:induction false} FramedPartsAreInjective(p: seq<seq<Byte>>, q: seq<seq<Byte>>)
    requires |p| == |q| && FramedParts(p) == FramedParts(q)
    requires forall s :: s in p + q ==> |s| <= U64_MAX
    ensures p == q
  {
    if p != [] {
      assert p[0] in p + q && q[0] in p + q;
      PeelU64(|p[0]|, p[0] + FramedParts(p[1..]), |q[0]|, q[0] + FramedParts(q[1..]));
      PeelBytes(p[0], FramedParts(p[1..]), q[0], FramedParts(q[1..]));
      FramedPartsAreInjective(p[1..], q[1..]);
      assert p == [p[0]] + p[1..] && q == [q[0]] + q[1..];
    }
  }

  /** Different part lists, of whatever lengths and split points, are hashed as different strings. */
  lemma FingerprintInputIsInjective(p: seq<seq<Byte>>, q: seq<seq<Byte>>)
    requires FingerprintInput(p) == FingerprintInput(q)
    requires |p| <= U32_MAX && |q| <= U32_MAX && forall s :: s in p + q ==> |s| <= U64_MAX
    ensures p == q
  {
    PeelBytes(Ascii("dc-fingerprint-v1"), BigEndian(|p|, 4) + FramedParts(p),
              Ascii("dc-fingerprint-v1"), BigEndian(|q|, 4) + FramedParts(q));
    PeelU32(|p|, FramedParts(p), |q|, FramedParts(q));
    FramedPartsAreInjective(p, q);
  }

  function TicketFingerprintInput(t: RelayTicket): seq<Byte> {
    FingerprintInput([Ascii("relay-ticket"), TicketPayload(t)])
  }

  /** So unless the hash collides on the two, a fingerprint identifies a ticket up to its signature. */
  lemma FingerprintIdentifiesTicket(hash: seq<Byte> -> Bytes32, t: RelayTicket, u: RelayTicket)
    requires hash(TicketFingerprintInput(t)) == hash(TicketFingerprintInput(u))
    requires hash(TicketFingerprintInput(t)) == hash(TicketFingerprintInput(u)) ==>
      TicketFingerprintInput(t) == TicketFingerprintInput(u)
    ensures t.(sig := []) == u.(sig := [])
  {
    FingerprintInputIsInjective([Ascii("relay-ticket"), TicketPayload(t)], [Ascii("relay-ticket"), TicketPayload(u)]);
    TicketPayloadIsInjective(t, u);
  }

  // ---------------------------------------------------------------- key announcements

  datatype Announcement = Announcement(
    identity: NodeId, nodeKey: NodeId, serial: U64, notBefore: U64, notAfter: U64, sig: seq<Byte>)

  function AnnouncementPayload(a: Announcement): seq<Byte> {
    Ascii("dc-node-key-announcement-v1\n")
    + (a.identity + (a.nodeKey + (BigEndian(a.serial, 8) + (BigEndian(a.notBefore, 8) + BigEndian(a.notAfter, 8)))))
  }

  lemma AnnouncementPayloadIsInjective(a: Announcement, b: Announcement)
    requires AnnouncementPayload(a) == AnnouncementPayload(b)
    ensures a.(sig := []) == b.(sig := [])
  {
    var a3, b3 := BigEndian(a.notAfter, 8), BigEndian(b.notAfter, 8);
    var a2, b2 := BigEndian(a.notBefore, 8) + a3, BigEndian(b.notBefore, 8) + b3;
    var a1, b1 := BigEndian(a.serial, 8) + a2, BigEndian(b.serial, 8) + b2;
    PeelBytes(Ascii("dc-node-key-announcement-v1\n"), a.identity + (a.nodeKey + a1),
              Ascii("dc-node-key-announcement-v1\n"), b.identity + (b.nodeKey + b1));
    PeelBytes(a.identity, a.nodeKey + a1, b.identity, b.nodeKey + b1);
    PeelBytes(a.nodeKey, a1, b.nodeKey, b1);
    PeelU64(a.serial, a2, b.serial, b2);
    PeelU64(a.notBefore, a3, b.notBefore, b3);
    assert a3 == a3 + [] && b3 == b3 + [];
    PeelU64(a.notAfter, [], b.notAfter, []);
  }

  // ---------------------------------------------------------------- mailbox writes

  datatype PayloadKind = Text | SessionMgmt | GroupMgmt | NodeCtl {
    function Code(): Byte {
      match this case Text => 1 case SessionMgmt => 2 case GroupMgmt => 3 case NodeCtl => 4
    }
  }

  datatype Envelope = Envelope(
    msgId: Bytes16, sender: NodeId, recipient: Option<NodeId>, group: Option<NodeId>,
    kind: PayloadKind, body: seq<Byte>, sentAt: U64, ttlHops: Byte)

  datatype BucketWrite = BucketWrite(envelope: Envelope, serial: U32, nonce: Bytes16, ts: U64, mac: Bytes32)

  /** An optional field behind a presence flag. */
  function Flagged(o: Option<NodeId>): seq<Byte> {
    match o case Some(id) => [1] + id case None => [0]
  }

  lemma PeelFlagged(o: Option<NodeId>, x: seq<Byte>, p: Option<NodeId>, y: seq<Byte>)
    requires Flagged(o) + x == Flagged(p) + y
    ensures o == p && x == y
  {
    assert (Flagged(o) + x)[0] == Flagged(o)[0] && (Flagged(p) + y)[0] == Flagged(p)[0];
    PeelBytes(Flagged(o), x, Flagged(p), y);
    if o.Some? { PeelByte(1, o.value, 1, p.value); }
  }

  /** The part of the authenticated string that follows the two optional fields. */
  function MacTail(e: Envelope): seq<Byte> {
    [e.kind.Code()] + (BigEndian(e.sentAt, 8) + ([e.ttlHops] + e.body))
  }

  function MacEnvelope(e: Envelope): seq<Byte> {
    e.msgId + (e.sender + (Flagged(e.recipient) + (Flagged(e.group) + MacTail(e))))
  }

  function MacInput(w: BucketWrite): seq<Byte> {
    Ascii("dc-bucket-write-v1\n")
    + (BigEndian(w.serial, 4) + (w.nonce + (BigEndian(w.ts, 8) + MacEnvelope(w.envelope))))
  }

  lemma MacEnvelopeIsInjective(e: Envelope, f: Envelope)
    requires MacEnvelope(e) == MacEnvelope(f)
    ensures e == f
  {
    var e2, f2 := Flagged(e.group) + MacTail(e), Flagged(f.group) + MacTail(f);
    var e1, f1 := Flagged(e.recipient) + e2, Flagged(f.recipient) + f2;
    PeelBytes(e.msgId, e.sender + e1, f.msgId, f.sender + f1);
    PeelBytes(e.sender, e1, f.sender, f1);
    PeelFlagged(e.recipient, e2, f.recipient, f2);
    PeelFlagged(e.group, MacTail(e), f.group, MacTail(f));
    PeelByte(e.kind.Code(), BigEndian(e.sentAt, 8) + ([e.ttlHops] + e.body),
             f.kind.Code(), BigEndian(f.sentAt, 8) + ([f.ttlHops] + f.body));
    PeelU64(e.sentAt, [e.ttlHops] + e.body, f.sentAt, [f.ttlHops] + f.body);
    PeelByte(e.ttlHops, e.body, f.ttlHops, f.body);
  }

  /** The authenticated string fixes every field of a write but the MAC, across flags and body lengths. */
  lemma MacInputIsInjective(w: BucketWrite, v: BucketWrite)
    requires MacInput(w) == MacInput(v)
    ensures w == v.(mac := w.mac)
  {
    var w2, v2 := BigEndian(w.ts, 8) + MacEnvelope(w.envelope), BigEndian(v.ts, 8) + MacEnvelope(v.envelope);
    var w1, v1 := w.nonce + w2, v.nonce + v2;
    PeelBytes(Ascii("dc-bucket-write-v1\n"), BigEndian(w.serial, 4) + w1,
              Ascii("dc-bucket-write-v1\n"), BigEndian(v.serial, 4) + v1);
    PeelU32(w.serial, w1, v.serial, v1);
    PeelBytes(w.nonce, w2, v.nonce, v2);
    PeelU64(w.ts, MacEnvelope(w.envelope), v.ts, MacEnvelope(v.envelope));
    MacEnvelopeIsInjective(w.envelope, v.envelope);
  }

  /** Key-derivation material: a secret of any length, then bucket and key version. */
  function DeriveMaterial(secret: seq<Byte>, bucket: NodeId, serial: U32): seq<Byte> {
    secret + (bucket + BigEndian(serial, 4))
  }

  lemma DeriveMaterialIsInjective(s: seq<Byte>, b: NodeId, n: U32, s': seq<Byte>, b': NodeId, n': U32)
    requires DeriveMaterial(s, b, n) == DeriveMaterial(s', b', n')
    ensures s == s' && b == b' && n == n'
  {
    assert |DeriveMaterial(s, b, n)| == |s| + 36 && |DeriveMaterial(s', b', n')| == |s'| + 36;
    PeelBytes(s, b + BigEndian(n, 4), s', b' + BigEndian(n', 4));
    PeelBytes(b, BigEndian(n, 4), b', BigEndian(n', 4));
    assert BigEndian(n, 4) == BigEndian(n, 4) + [] && BigEndian(n', 4) == BigEndian(n', 4) + [];
    PeelU32(n, [], n', []);
  }

  // ---------------------------------------------------------------- layout and separation

  lemma U64Value(v: U64)
    ensures FromBigEndian(BigEndian(v, 8)) == v
  {
    BigEndianRoundTrip(v, 8);
  }

  /** Every field of a signed ticket can be read at its place. */
  lemma TicketLayout(t: RelayTicket)
    ensures var p := TicketPayload(t);
      && |p| == 147 && p[..19] == Ascii("dc-relay-ticket-v1\n")
      && p[19..51] == t.dest && p[51..83] == t.origin
      && FromBigEndian(p[83..91]) == t.issuedAt && FromBigEndian(p[91..99]) == t.expiry
      && p[99..115] == t.nonce && p[115..] == t.challenge
  {
    hide BigEndian, FromBigEndian, Ascii;
    var p := TicketPayload(t);
    assert p[83..91] == BigEndian(t.issuedAt, 8) && p[91..99] == BigEndian(t.expiry, 8);
    U64Value(t.issuedAt);
    U64Value(t.expiry);
  }

  /** And of a signed announcement. */
  lemma AnnouncementLayout(a: Announcement)
    ensures var p := AnnouncementPayload(a);
      && |p| == 116 && p[..28] == Ascii("dc-node-key-announcement-v1\n")
      && p[28..60] == a.identity && p[60..92] == a.nodeKey
      && FromBigEndian(p[92..100]) == a.serial
      && FromBigEndian(p[100..108]) == a.notBefore && FromBigEndian(p[108..]) == a.notAfter
  {
    hide BigEndian, FromBigEndian, Ascii;
    var p := AnnouncementPayload(a);
    assert p[92..100] == BigEndian(a.serial, 8) && p[100..108] == BigEndian(a.notBefore, 8);
    assert p[108..] == BigEndian(a.notAfter, 8);
    U64Value(a.serial);
    U64Value(a.notBefore);
    U64Value(a.notAfter);
  }

  function Presence(o: Option<NodeId>): Byte { if o.Some? then 1 else 0 }

  /** And of a MACed write, which ends with its envelope. */
  lemma WriteLayout(w: BucketWrite)
    ensures var p := MacInput(w);
      && p[..19] == Ascii("dc-bucket-write-v1\n") && FromBigEndian(p[19..23]) == w.serial
      && p[23..39] == w.nonce && FromBigEndian(p[39..47]) == w.ts && p[47..] == MacEnvelope(w.envelope)
  {
    hide MacEnvelope;
    var p := MacInput(w);
    assert p[19..23] == BigEndian(w.serial, 4) && p[39..47] == BigEndian(w.ts, 8);
    U64Value(w.ts);
    BigEndianRoundTrip(w.serial, 4);
  }

  lemma FlaggedLayout(o: Option<NodeId>, rest: seq<Byte>)
    ensures var (p, n) := (Flagged(o) + rest, if o.Some? then 33 else 1);
      |p| == n + |rest| && p[0] == Presence(o) && (o.Some? ==> p[1..n] == o.value) && p[n..] == rest
  {
  }

  /** The optional fields of an envelope stand behind a presence byte each; the body comes last. */
  lemma EnvelopeLayout(e: Envelope)
    ensures var p := MacEnvelope(e);
      var r := if e.recipient.Some? then 81 else 49;
      var g := r + (if e.group.Some? then 33 else 1);
      && |p| == g + 10 + |e.body| && p[..16] == e.msgId && p[16..48] == e.sender
      && p[48] == Presence(e.recipient) && (e.recipient.Some? ==> p[49..r] == e.recipient.value)
      && p[r] == Presence(e.group) && (e.group.Some? ==> p[r + 1..g] == e.group.value)
      && p[g] == (if e.kind.Text? then 1 else if e.kind.SessionMgmt? then 2 else if e.kind.GroupMgmt? then 3 else 4)
      && FromBigEndian(p[g + 1..g + 9]) == e.sentAt && p[g + 9] == e.ttlHops && p[g + 10..] == e.body
  {
    assert e.kind.Code() ==
      if e.kind.Text? then 1 else if e.kind.SessionMgmt? then 2 else if e.kind.GroupMgmt? then 3 else 4;
    OptionsLayout(e);
    TailLayout(e);
    hide *;
    var p, tail := MacEnvelope(e), MacTail(e);
    var r := if e.recipient.Some? then 81 else 49;
    var g := r + (if e.group.Some? then 33 else 1);
    SliceOfTail(p, g, tail, 1, 9);
    SliceOfTail(p, g, tail, 10, |tail|);
  }

  lemma OptionsLayout(e: Envelope)
    ensures var (p, tail) := (MacEnvelope(e), MacTail(e));
      var r := if e.recipient.Some? then 81 else 49;
      var g := r + (if e.group.Some? then 33 else 1);
      && |p| == g + |tail| && p[..16] == e.msgId && p[16..48] == e.sender
      && p[48] == Presence(e.recipient) && (e.recipient.Some? ==> p[49..r] == e.recipient.value)
      && p[r] == Presence(e.group) && (e.group.Some? ==> p[r + 1..g] == e.group.value)
      && p[g..] == tail
  {
    hide Flagged, MacTail;
    var p, tail := MacEnvelope(e), MacTail(e);
    var more := Flagged(e.group) + tail;
    NamesLayout(e);
    OptionAt(p, 48, e.recipient, more);
    OptionAt(p, if e.recipient.Some? then 81 else 49, e.group, tail);
  }

  lemma NamesLayout(e: Envelope)
    ensures var p := MacEnvelope(e);
      && |p| >= 48 && p[..16] == e.msgId && p[16..48] == e.sender
      && p[48..] == Flagged(e.recipient) + (Flagged(e.group) + MacTail(e))
  {
    hide Flagged, MacTail;
  }

  lemma OptionAt(p: seq<Byte>, at: nat, o: Option<NodeId>, rest: seq<Byte>)
    requires at <= |p| && p[at..] == Flagged(o) + rest
    ensures var next := at + (if o.Some? then 33 else 1);
      && |p| == next + |rest| && p[at] == Presence(o) && (o.Some? ==> p[at + 1..next] == o.value)
      && p[next..] == rest
  {
    FlaggedLayout(o, rest);
    var tail := Flagged(o) + rest;
    hide Flagged;
    var n := if o.Some? then 33 else 1;
    SliceOfTail(p, at, tail, 1, n);
    SliceOfTail(p, at, tail, n, |tail|);
  }

  lemma SliceOfTail(p: seq<Byte>, at: nat, tail: seq<Byte>, a: nat, b: nat)
    requires at <= |p| && p[at..] == tail && a <= b <= |tail|
    ensures p[at + a..at + b] == tail[a..b]
    ensures b == |tail| ==> p[at + a..] == tail[a..]
    ensures tail != [] ==> p[at] == tail[0]
    ensures b < |tail| ==> p[at + b] == tail[b]
  {
    assert p == p[..at] + tail;
  }

  lemma TailLayout(e: Envelope)
    ensures var tail := MacTail(e);
      && |tail| == 10 + |e.body| && tail[0] == e.kind.Code() && tail[9] == e.ttlHops
      && FromBigEndian(tail[1..9]) == e.sentAt && tail[10..] == e.body
  {
    assert MacTail(e)[1..9] == BigEndian(e.sentAt, 8);
    U64Value(e.sentAt);
  }

  /** No signature, hash or MAC of one kind can be taken for one of another kind. */
  lemma KindsAreApart(t: RelayTicket, a: Announcement, w: BucketWrite, parts: seq<seq<Byte>>)
    ensures TicketPayload(t) != AnnouncementPayload(a) && TicketPayload(t) != MacInput(w)
    ensures AnnouncementPayload(a) != MacInput(w)
    ensures FingerprintInput(parts) !in [TicketPayload(t), AnnouncementPayload(a), MacInput(w)]
  {
    hide BigEndian, FramedParts, MacEnvelope;
    assert TicketPayload(t)[3] == Ascii("dc-relay-ticket-v1\n")[3];
    assert AnnouncementPayload(a)[3] == Ascii("dc-node-key-announcement-v1\n")[3];
    assert MacInput(w)[3] == Ascii("dc-bucket-write-v1\n")[3];
    assert FingerprintInput(parts)[3] == Ascii("dc-fingerprint-v1")[3];
  }
}
