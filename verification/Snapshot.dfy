/** The `dc://node` address snapshot (crates/core/src/node.rs): printer, parser and their round trip. */
module Snapshot {
  import opened Common
  import opened Texts
  import opened Base64

  const PREFIX := "dc://node?"

  type U16 = x: int | 0 <= x < 65536
  type Bytes4 = s: seq<Byte> | |s| == 4 witness [0, 0, 0, 0]

  datatype SocketAddr = V4(ip4: Bytes4, port: U16) | V6(ip6: Bytes16, port: U16)

  /** A relay URL by its text; parsing one is left to the library. */
  type RelayUrl = Bytes

  datatype TransportAddr = Ip(addr: SocketAddr) | Relay(url: RelayUrl)
  datatype EndpointAddr = EndpointAddr(id: Bytes32, addrs: seq<TransportAddr>)

  /** What a running endpoint knows about itself. */
  datatype Endpoint = Endpoint(id: Bytes32, ips: seq<SocketAddr>, relays: seq<RelayUrl>)

  /** Library checks: which 32 bytes are a key, and which bytes are a relay URL. */
  datatype Library = Library(isKey: Bytes32 -> bool, parseUrl: Bytes -> Option<RelayUrl>)

  // ---------------------------------------------------------------- socket addresses

  function PortBytes(p: U16): Bytes { [p / 256, p % 256] }

  function SockaddrBytes(a: SocketAddr): Bytes {
    match a case V4(ip, port) => ip + PortBytes(port) case V6(ip, port) => ip + PortBytes(port)
  }

  function SockaddrFromBytes(b: Bytes): Option<SocketAddr> {
    if |b| == 6 then Some(V4(b[..4], (b[4] as int) * 256 + b[5]))
    else if |b| == 18 then Some(V6(b[..16], (b[16] as int) * 256 + b[17]))
    else None
  }

  lemma SockaddrRoundTrip(a: SocketAddr)
    ensures SockaddrFromBytes(SockaddrBytes(a)) == Some(a)
  {
  }

  /** The address in network order, then the port, high byte first. */
  lemma SockaddrLayout(a: SocketAddr)
    ensures var (b, ip) := (SockaddrBytes(a), if a.V4? then a.ip4 else a.ip6);
      b[..|ip|] == ip && |b| == |ip| + 2 && b[|ip|] as int * 256 + b[|ip| + 1] as int == a.port
  {
  }

  predicate IsUnspecified(a: SocketAddr) {
    match a case V4(ip, _) => ip == seq(4, _ => 0) case V6(ip, _) => ip == seq(16, _ => 0)
  }

  predicate IsLoopback(a: SocketAddr) {
    match a case V4(ip, _) => ip[0] == 127 case V6(ip, _) => ip == seq(15, _ => 0) + [1]
  }

  function Advertised(ips: seq<SocketAddr>, loopback: bool): seq<SocketAddr> {
    if ips == [] then [] else
      (if !IsUnspecified(ips[0]) && (loopback || !IsLoopback(ips[0])) then [ips[0]] else [])
      + Advertised(ips[1..], loopback)
  }

  /** All bytes zero, whatever the family. */
  ghost predicate AllZero(a: SocketAddr) {
    match a
    case V4(ip, _) => forall i :: 0 <= i < 4 ==> ip[i] == 0
    case V6(ip, _) => forall i :: 0 <= i < 16 ==> ip[i] == 0
  }

  /** In 127.0.0.0/8, or ::1. */
  ghost predicate PointsHome(a: SocketAddr) {
    match a
    case V4(ip, _) => ip[0] == 127
    case V6(ip, _) => ip[15] == 1 && forall i :: 0 <= i < 15 ==> ip[i] == 0
  }

  lemma {:induction false} AddrKinds(a: SocketAddr)
    ensures IsUnspecified(a) <==> AllZero(a)
    ensures IsLoopback(a) <==> PointsHome(a)
  {
    if a.V6? && PointsHome(a) { assert a.ip6[..15] == seq(15, _ => 0) && a.ip6 == a.ip6[..15] + [1]; }
  }

  /** What is advertised: nothing unspecified, loopback only on request, everything else, in order. */
  lemma {:induction false} AdvertisedMeaning(ips: seq<SocketAddr>, loopback: bool, a: SocketAddr)
    ensures a in Advertised(ips, loopback) <==> a in ips && !AllZero(a) && (loopback || !PointsHome(a))
    ensures |Advertised(ips, loopback)| <= |ips|
    ensures (forall x :: x in ips ==> !AllZero(x) && (loopback || !PointsHome(x))) ==>
      Advertised(ips, loopback) == ips
  {
    if ips != [] {
      AddrKinds(ips[0]);
      hide IsUnspecified, IsLoopback, AllZero, PointsHome;
      AdvertisedMeaning(ips[1..], loopback, a);
      assert ips == [ips[0]] + ips[1..];
    }
  }

  // ---------------------------------------------------------------- hexadecimal

  type Nibble = d: int | 0 <= d < 16

  function HexDigit(d: Nibble): char {
    if d < 10 then '0' + d as char else 'a' + (d - 10) as char
  }

  function HexValue(c: char): Option<Nibble> {
    if '0' <= c <= '9' then Some((c - '0') as int)
    else if 'a' <= c <= 'f' then Some((c - 'a') as int + 10)
    else if 'A' <= c <= 'F' then Some((c - 'A') as int + 10)
    else None
  }

  function Hex(b: Bytes): (r: string)
    ensures |r| == 2 * |b|
  {
    if b == [] then "" else [HexDigit(b[0] / 16), HexDigit(b[0] % 16)] + Hex(b[1..])
  }

  function Unhex(s: string): Option<Bytes> {
    if |s| == 0 then Some([])
    else if |s| == 1 then None
    else match (HexValue(s[0]), HexValue(s[1]), Unhex(s[2..]))
      case (Some(h), Some(l), Some(rest)) => Some([(h as int) * 16 + l] + rest)
      case _ => None
  }

  lemma HexDigitValue(d: Nibble)
    ensures HexValue(HexDigit(d)) == Some(d)
  {
  }

  lemma {:induction false} HexRoundTrip(b: Bytes)
    ensures Unhex(Hex(b)) == Some(b)
    ensures forall c :: c in Hex(b) ==> HexValue(c).Some?
  {
    if b != [] {
      hide HexDigit, HexValue;
      HexRoundTrip(b[1..]);
      HexDigitValue(b[0] / 16);
      HexDigitValue(b[0] % 16);
      assert Hex(b)[2..] == Hex(b[1..]);
      assert b == [b[0]] + b[1..];
    }
  }

  /** Digits of either case have a value, and nothing else has. */
  lemma HexValueIff(c: char, d: Nibble)
    ensures HexValue(c) == Some(d) <==> c == "0123456789abcdef"[d] || c == "0123456789ABCDEF"[d]
  {
  }

  ghost predicate ByteAt(s: string, i: nat, x: Byte)
    requires 2 * i + 1 < |s|
  {
    HexValue(s[2 * i]) == Some(x / 16) && HexValue(s[2 * i + 1]) == Some(x % 16)
  }

  ghost predicate IsHexOf(s: string, b: Bytes) {
    |s| == 2 * |b| && forall i :: 0 <= i < |b| ==> ByteAt(s, i, b[i])
  }

  lemma {:induction false} HexOfRest(s: string, b: Bytes)
    requires |s| == 2 * |b| && b != []
    ensures IsHexOf(s, b) <==> ByteAt(s, 0, b[0]) && IsHexOf(s[2..], b[1..])
  {
    hide HexValue;
    if IsHexOf(s, b) {
      forall i | 0 <= i < |b| - 1 ensures ByteAt(s[2..], i, b[1..][i]) { assert ByteAt(s, i + 1, b[i + 1]); }
    }
    if ByteAt(s, 0, b[0]) && IsHexOf(s[2..], b[1..]) {
      forall i | 0 < i < |b| ensures ByteAt(s, i, b[i]) { assert ByteAt(s[2..], i - 1, b[1..][i - 1]); }
    }
  }

  /** Exactly the texts of an even number of digits are read, two digits a byte, high half first. */
  lemma {:induction false} UnhexIff(s: string, b: Bytes)
    ensures Unhex(s) == Some(b) <==> IsHexOf(s, b)
    decreases |s|
  {
    hide HexValue;
    if |s| >= 2 && b != [] {
      UnhexIff(s[2..], b[1..]);
      assert b == [b[0]] + b[1..];
      if |s| == 2 * |b| { HexOfRest(s, b); }
      hide IsHexOf;
    }
  }

  // ---------------------------------------------------------------- printing

  function EncodedAddrs(ips: seq<SocketAddr>): (r: seq<string>)
    ensures |r| == |ips|
  {
    seq(|ips|, i requires 0 <= i < |ips| => B64(SockaddrBytes(ips[i])))
  }

  function IdPair(id: Bytes32): string { "id" + "=" + Hex(id) }

  function AddrPairs(ips: seq<SocketAddr>): seq<string> {
    if ips == [] then [] else ["a" + "=" + Join(EncodedAddrs(ips), ',')]
  }

  function RelayPairs(relays: seq<RelayUrl>): seq<string> {
    if relays == [] then [] else ["r" + "=" + B64(relays[0])]
  }

  /** `naddr_string`: the version, then id, addresses and first relay, each behind `&`. */
  function Print(ep: Endpoint, loopback: bool): string {
    PREFIX + ("v=1" +
      Sections([IdPair(ep.id)] + (AddrPairs(Advertised(ep.ips, loopback)) + RelayPairs(ep.relays)), '&'))
  }

  // ---------------------------------------------------------------- parsing

  datatype Progress = Progress(id: Option<Bytes32>, addrs: seq<TransportAddr>)

  function ParseAddrs(parts: seq<string>): Option<seq<TransportAddr>> {
    if parts == [] then Some([]) else
      match Unb64(parts[0])
      case None => None
      case Some(b) =>
        match (SockaddrFromBytes(b), ParseAddrs(parts[1..]))
        case (Some(a), Some(rest)) => Some([Ip(a)] + rest)
        case _ => None
  }

  function ParseRelay(lib: Library, v: string): Option<RelayUrl> {
    match Unb64(v) case None => None case Some(b) => lib.parseUrl(b)
  }

  function ParseId(lib: Library, v: string): Option<Bytes32> {
    match Unhex(v) case None => None case Some(b) => if |b| == 32 && lib.isKey(b) then Some(b) else None
  }

  /** One `key=value` pair; unknown keys are skipped, a later `id` replaces an earlier one. */
  function ParsePair(lib: Library, st: Progress, pair: string): Option<Progress> {
    var i := Find(pair, '=');
    if i == |pair| then None else
      var k, v := pair[..i], pair[i + 1..];
      if k == "v" then (if v != "1" then None else Some(st))
      else if k == "id" then
        match ParseId(lib, v) case None => None case Some(id) => Some(st.(id := Some(id)))
      else if k == "a" then
        match ParseAddrs(Split(v, ',')) case None => None case Some(as_) => Some(st.(addrs := st.addrs + as_))
      else if k == "r" then
        match ParseRelay(lib, v) case None => None case Some(u) => Some(st.(addrs := st.addrs + [Relay(u)]))
      else Some(st)
  }

  function ParsePairs(lib: Library, st: Progress, pairs: seq<string>): Option<Progress>
    decreases |pairs|
  {
    if pairs == [] then Some(st) else
      match ParsePair(lib, st, pairs[0]) case None => None case Some(st') => ParsePairs(lib, st', pairs[1..])
  }

  function Finish(r: Option<Progress>): Result<EndpointAddr> {
    if r.Some? && r.value.id.Some? then Ok(EndpointAddr(r.value.id.value, r.value.addrs)) else Err
  }

  function Parse(lib: Library, s: string): Result<EndpointAddr> {
    if !(PREFIX <= s) then Err
    else Finish(ParsePairs(lib, Progress(None, []), Split(s[|PREFIX|..], '&')))
  }

  method ParseNaddr(lib: Library, s: string) returns (r: Result<EndpointAddr>)
    ensures r == Parse(lib, s)
  {
    hide ParsePair;
    if !(PREFIX <= s) {
      return Err;
    }
    var pairs := Split(s[|PREFIX|..], '&');
    var st := Progress(None, []);
    for i := 0 to |pairs|
      invariant ParsePairs(lib, Progress(None, []), pairs) == ParsePairs(lib, st, pairs[i..])
    {
      assert pairs[i..][1..] == pairs[i + 1..];
      var next := ParsePair(lib, st, pairs[i]);
      if next.None? {
        return Err;
      }
      st := next.value;
    }
    r := Finish(Some(st));
  }

  // ---------------------------------------------------------------- round trip

  lemma EncodedAddrsAreClean(ips: seq<SocketAddr>, c: char)
    requires Value(c).None?
    ensures forall p :: p in EncodedAddrs(ips) ==> c !in p
  {
  }

  /** No printed pair contains the pair separator. */
  lemma PairsAreClean(id: Bytes32, ips: seq<SocketAddr>, relays: seq<RelayUrl>)
    ensures '&' !in IdPair(id)
    ensures forall p :: p in AddrPairs(ips) + RelayPairs(relays) ==> '&' !in p
  {
    HexRoundTrip(id);
    assert HexValue('&').None?;
    EncodedAddrsAreClean(ips, '&');
    JoinFree(EncodedAddrs(ips), ',', '&');
    if relays != [] { NoSeparators(relays[0], '&'); }
  }

  function IpAddrs(ips: seq<SocketAddr>): seq<TransportAddr> {
    if ips == [] then [] else [Ip(ips[0])] + IpAddrs(ips[1..])
  }

  function RelayAddrs(relays: seq<RelayUrl>): seq<TransportAddr> {
    if relays == [] then [] else [Relay(relays[0])]
  }

  lemma {:induction false} AddrsParseBack(ips: seq<SocketAddr>)
    ensures ParseAddrs(EncodedAddrs(ips)) == Some(IpAddrs(ips))
  {
    if ips != [] {
      RoundTrip(SockaddrBytes(ips[0]));
      SockaddrRoundTrip(ips[0]);
      assert EncodedAddrs(ips)[1..] == EncodedAddrs(ips[1..]);
      AddrsParseBack(ips[1..]);
    }
  }

  lemma {:induction false} ParsePairsAppend(lib: Library, st: Progress, xs: seq<string>, ys: seq<string>)
    requires ParsePairs(lib, st, xs).Some?
    ensures ParsePairs(lib, st, xs + ys) == ParsePairs(lib, ParsePairs(lib, st, xs).value, ys)
    decreases |xs|
  {
    hide ParsePair;
    if xs == [] {
      assert xs + ys == ys;
    } else {
      assert (xs + ys)[1..] == xs[1..] + ys;
      ParsePairsAppend(lib, ParsePair(lib, st, xs[0]).value, xs[1..], ys);
    }
  }

  lemma HeadPairs(lib: Library, id: Bytes32)
    requires lib.isKey(id)
    ensures ParsePairs(lib, Progress(None, []), ["v=1", IdPair(id)]) == Some(Progress(Some(id), []))
  {
    var s0 := Progress(None, []);
    assert "v=1" == "v" + "=" + "1";
    PairAt("v", "1");
    assert ParsePair(lib, s0, "v=1") == Some(s0);
    PairAt("id", Hex(id));
    HexRoundTrip(id);
    assert ParsePair(lib, s0, IdPair(id)) == Some(s0.(id := Some(id)));
    hide ParsePair;
    assert ["v=1", IdPair(id)][1..] == [IdPair(id)] && [IdPair(id)][1..] == [];
    assert ParsePairs(lib, s0, [IdPair(id)]) == Some(s0.(id := Some(id)));
  }

  lemma AddrTail(lib: Library, st: Progress, ips: seq<SocketAddr>)
    ensures ParsePairs(lib, st, AddrPairs(ips)) == Some(st.(addrs := st.addrs + IpAddrs(ips)))
  {
    if ips != [] {
      var parts := EncodedAddrs(ips);
      PairAt("a", Join(parts, ','));
      EncodedAddrsAreClean(ips, ',');
      SplitJoin(parts, ',');
      AddrsParseBack(ips);
      assert ParsePair(lib, st, "a" + "=" + Join(parts, ',')) == Some(st.(addrs := st.addrs + IpAddrs(ips)));
    } else {
      assert st.addrs + IpAddrs(ips) == st.addrs;
    }
  }

  lemma RelayTail(lib: Library, st: Progress, relays: seq<RelayUrl>)
    requires relays != [] ==> lib.parseUrl(relays[0]) == Some(relays[0])
    ensures ParsePairs(lib, st, RelayPairs(relays)) == Some(st.(addrs := st.addrs + RelayAddrs(relays)))
  {
    if relays != [] {
      PairAt("r", B64(relays[0]));
      RoundTrip(relays[0]);
      assert ParsePair(lib, st, "r" + "=" + B64(relays[0])) == Some(st.(addrs := st.addrs + [Relay(relays[0])]));
    } else {
      assert st.addrs + RelayAddrs(relays) == st.addrs;
    }
  }

  /** The pairs come back from the printed text. */
  lemma PrintedPairs(ep: Endpoint, loopback: bool)
    ensures PREFIX <= Print(ep, loopback)
    ensures Split(Print(ep, loopback)[|PREFIX|..], '&')
      == ["v=1", IdPair(ep.id)] + (AddrPairs(Advertised(ep.ips, loopback)) + RelayPairs(ep.relays))
  {
    hide Advertised, IdPair, AddrPairs, RelayPairs;
    var ips := Advertised(ep.ips, loopback);
    var more := AddrPairs(ips) + RelayPairs(ep.relays);
    var pairs := ["v=1"] + ([IdPair(ep.id)] + more);
    PairsAreClean(ep.id, ips, ep.relays);
    JoinIsSections("v=1", [IdPair(ep.id)] + more, '&');
    SplitJoin(pairs, '&');
    assert Print(ep, loopback)[|PREFIX|..] == Join(pairs, '&');
    assert pairs == ["v=1", IdPair(ep.id)] + more;
  }

  /**
   * Parsing a printed snapshot returns the id, the advertised addresses in order and the first relay,
   * for every endpoint whose key and relay URL the library accepts back.
   */
  lemma SnapshotRoundTrip(lib: Library, ep: Endpoint, loopback: bool)
    requires lib.isKey(ep.id) && (ep.relays != [] ==> lib.parseUrl(ep.relays[0]) == Some(ep.relays[0]))
    ensures Parse(lib, Print(ep, loopback)) ==
      Ok(EndpointAddr(ep.id, IpAddrs(Advertised(ep.ips, loopback)) + RelayAddrs(ep.relays)))
  {
    hide ParsePairs, Print, Advertised, IdPair, AddrPairs, RelayPairs, IpAddrs, RelayAddrs, Split;
    var ips := Advertised(ep.ips, loopback);
    var s1, s2 := Progress(Some(ep.id), []), Progress(Some(ep.id), IpAddrs(ips));
    PrintedPairs(ep, loopback);
    HeadPairs(lib, ep.id);
    ParsePairsAppend(lib, Progress(None, []), ["v=1", IdPair(ep.id)], AddrPairs(ips) + RelayPairs(ep.relays));
    AddrTail(lib, s1, ips);
    assert s1.addrs + IpAddrs(ips) == IpAddrs(ips);
    ParsePairsAppend(lib, s1, AddrPairs(ips), RelayPairs(ep.relays));
    RelayTail(lib, s2, ep.relays);
  }

  // ---------------------------------------------------------------- what is accepted, exactly

  function KeyOf(pair: string): string { pair[..Find(pair, '=')] }

  function ValueOf(pair: string): string {
    var i := Find(pair, '=');
    if i < |pair| then pair[i + 1..] else ""
  }

  /** The text of one socket address. */
  ghost predicate IsAddr(part: string, a: SocketAddr) {
    Unb64(part).Some? && SockaddrFromBytes(Unb64(part).value) == Some(a)
  }

  ghost predicate AreAddrs(parts: seq<string>, addrs: seq<TransportAddr>) {
    |addrs| == |parts| && forall i :: 0 <= i < |parts| ==> addrs[i].Ip? && IsAddr(parts[i], addrs[i].addr)
  }

  lemma {:induction false} ParseAddrsIff(parts: seq<string>, addrs: seq<TransportAddr>)
    ensures ParseAddrs(parts) == Some(addrs) <==> AreAddrs(parts, addrs)
  {
    hide Unb64;
    if parts != [] && addrs != [] {
      ParseAddrsIff(parts[1..], addrs[1..]);
      assert addrs == [addrs[0]] + addrs[1..];
      assert AreAddrs(parts, addrs) ==> forall i :: 0 <= i < |parts| - 1 ==> addrs[1..][i] == addrs[i + 1];
      assert AreAddrs(parts[1..], addrs[1..]) ==> forall i :: 1 <= i < |parts| ==> addrs[i] == addrs[1..][i - 1];
    }
  }

  /** A pair is in order and adds these addresses: unknown keys add none, a version must be 1. */
  ghost predicate PairGives(lib: Library, pair: string, more: seq<TransportAddr>) {
    && '=' in pair
    && var (k, v) := (KeyOf(pair), ValueOf(pair));
    if k == "a" then AreAddrs(Split(v, ','), more)
    else if k == "r" then
      Unb64(v).Some? && lib.parseUrl(Unb64(v).value).Some? && more == [Relay(lib.parseUrl(Unb64(v).value).value)]
    else more == [] && (k == "v" ==> v == "1") && (k == "id" ==> exists id: Bytes32 :: IsId(lib, v, id))
  }

  ghost predicate IsId(lib: Library, v: string, id: Bytes32) { Unhex(v) == Some(id) && lib.isKey(id) }

  /** The pairs are all in order and add these addresses, one after the other. */
  ghost predicate PairsGive(lib: Library, pairs: seq<string>, addrs: seq<TransportAddr>) {
    if pairs == [] then addrs == [] else
      var n := |pairs| - 1;
      exists k :: 0 <= k <= |addrs| && PairsGive(lib, pairs[..n], addrs[..k]) && PairGives(lib, pairs[n], addrs[k..])
  }

  /** Pair `i` is the last one that names the id. */
  ghost predicate NamesId(lib: Library, pairs: seq<string>, i: nat, id: Bytes32) {
    && i < |pairs| && '=' in pairs[i] && KeyOf(pairs[i]) == "id" && IsId(lib, ValueOf(pairs[i]), id)
    && forall m :: i < m < |pairs| ==> KeyOf(pairs[m]) != "id"
  }

  ghost predicate IdIs(lib: Library, pairs: seq<string>, id: Option<Bytes32>) {
    match id
    case Some(x) => exists i: nat :: NamesId(lib, pairs, i, x)
    case None => forall i :: 0 <= i < |pairs| ==> KeyOf(pairs[i]) != "id"
  }

  lemma {:induction false} ParseIdIff(lib: Library, v: string, id: Bytes32)
    ensures ParseId(lib, v) == Some(id) <==> IsId(lib, v, id)
  {
    hide Unhex;
  }

  lemma HasEquals(pair: string)
    ensures Find(pair, '=') == |pair| <==> '=' !in pair
  {
    var i := Find(pair, '=');
    assert i == |pair| ==> pair[..i] == pair;
  }

  lemma SplitAt(whole: seq<TransportAddr>, front: seq<TransportAddr>, more: seq<TransportAddr>)
    ensures whole == front + more <==> |front| <= |whole| && whole[..|front|] == front && whole[|front|..] == more
  {
  }

  /** One step of the parser: what is added, and what becomes of the id. */
  lemma {:induction false} ParsePairIff(lib: Library, st: Progress, pair: string, more: seq<TransportAddr>,
                                        id: Option<Bytes32>)
    ensures ParsePair(lib, st, pair) == Some(Progress(id, st.addrs + more)) <==> (
      && PairGives(lib, pair, more)
      && if KeyOf(pair) == "id" then id.Some? && IsId(lib, ValueOf(pair), id.value) else id == st.id)
  {
    HasEquals(pair);
    if '=' in pair {
      hide Find, Split, Unb64, Unhex, ParseAddrs, AreAddrs, IsId, ParseId;
      var k, v := KeyOf(pair), ValueOf(pair);
      ParseAddrsIff(Split(v, ','), more);
      forall id: Bytes32 ensures ParseId(lib, v) == Some(id) <==> IsId(lib, v, id) {
        ParseIdIff(lib, v, id);
      }
      forall other: seq<TransportAddr> | st.addrs + other == st.addrs + more ensures other == more {
        SplitAt(st.addrs + other, st.addrs, more);
        SplitAt(st.addrs + other, st.addrs, other);
      }
      assert st.addrs + [] == st.addrs;
    }
  }

  lemma {:induction false} ParsePairsLast(lib: Library, st: Progress, pairs: seq<string>)
    requires pairs != []
    ensures var (n, mid) := (|pairs| - 1, ParsePairs(lib, st, pairs[..|pairs| - 1]));
      ParsePairs(lib, st, pairs) == if mid.None? then None else ParsePair(lib, mid.value, pairs[n])
    decreases |pairs|
  {
    hide ParsePair;
    var next := ParsePair(lib, st, pairs[0]);
    if |pairs| > 1 {
      assert pairs[..|pairs| - 1][1..] == pairs[1..][..|pairs| - 2];
      if next.Some? { ParsePairsLast(lib, next.value, pairs[1..]); }
    } else if next.Some? {
      assert ParsePairs(lib, next.value, pairs[1..]) == next;
    }
  }

  lemma ParsePairGrows(lib: Library, st: Progress, pair: string) returns (more: seq<TransportAddr>)
    requires ParsePair(lib, st, pair).Some?
    ensures ParsePair(lib, st, pair).value.addrs == st.addrs + more
  {
    var next := ParsePair(lib, st, pair).value;
    hide Find, Split, ParseAddrs, ParseId, ParseRelay;
    more := next.addrs[|st.addrs|..];
  }

  /** The id after one more pair. */
  lemma {:induction false} IdMoves(lib: Library, pairs: seq<string>, before: Option<Bytes32>, id: Option<Bytes32>)
    requires pairs != [] && '=' in pairs[|pairs| - 1] && IdIs(lib, pairs[..|pairs| - 1], before)
    requires var last := pairs[|pairs| - 1];
      if KeyOf(last) == "id" then id.Some? && IsId(lib, ValueOf(last), id.value) else id == before
    ensures IdIs(lib, pairs, id)
  {
    hide KeyOf, ValueOf, IsId;
    var n := |pairs| - 1;
    if KeyOf(pairs[n]) == "id" {
      assert NamesId(lib, pairs, n, id.value);
    } else if id.Some? {
      var i: nat :| NamesId(lib, pairs[..n], i, id.value);
      assert NamesId(lib, pairs, i, id.value);
    }
  }

  lemma {:induction false} ParsedPairsGive(lib: Library, pairs: seq<string>)
    ensures var r := ParsePairs(lib, Progress(None, []), pairs);
      r.Some? ==> PairsGive(lib, pairs, r.value.addrs) && IdIs(lib, pairs, r.value.id)
  {
    hide ParsePair, IdIs;
    var r := ParsePairs(lib, Progress(None, []), pairs);
    if pairs == [] {
      NoId(lib);
    } else if r.Some? {
      var n := |pairs| - 1;
      ParsePairsLast(lib, Progress(None, []), pairs);
      ParsedPairsGive(lib, pairs[..n]);
      var mid := ParsePairs(lib, Progress(None, []), pairs[..n]).value;
      var more := ParsePairGrows(lib, mid, pairs[n]);
      ParsePairIff(lib, mid, pairs[n], more, r.value.id);
      SplitAt(r.value.addrs, mid.addrs, more);
      IdMoves(lib, pairs, mid.id, r.value.id);
    }
  }

  lemma NoId(lib: Library)
    ensures IdIs(lib, [], None)
  {
  }

  lemma {:induction false} GivenPairParses(lib: Library, st: Progress, pair: string, more: seq<TransportAddr>)
    requires PairGives(lib, pair, more)
    ensures ParsePair(lib, st, pair).Some? && ParsePair(lib, st, pair).value.addrs == st.addrs + more
  {
    hide ParsePair, IsId, Find, KeyOf, ValueOf, AreAddrs, Unb64;
    if KeyOf(pair) == "id" {
      var id: Bytes32 :| IsId(lib, ValueOf(pair), id);
      ParsePairIff(lib, st, pair, more, Some(id));
    } else {
      ParsePairIff(lib, st, pair, more, st.id);
    }
  }

  lemma {:induction false} GivenPairsParse(lib: Library, pairs: seq<string>, addrs: seq<TransportAddr>)
    requires PairsGive(lib, pairs, addrs)
    ensures var r := ParsePairs(lib, Progress(None, []), pairs); r.Some? && r.value.addrs == addrs
  {
    hide ParsePair, PairGives;
    if pairs != [] {
      var n := |pairs| - 1;
      var k :| 0 <= k <= |addrs| && PairsGive(lib, pairs[..n], addrs[..k]) && PairGives(lib, pairs[n], addrs[k..]);
      GivenPairsParse(lib, pairs[..n], addrs[..k]);
      ParsePairsLast(lib, Progress(None, []), pairs);
      GivenPairParses(lib, ParsePairs(lib, Progress(None, []), pairs[..n]).value, pairs[n], addrs[k..]);
      assert addrs == addrs[..k] + addrs[k..];
    }
  }

  lemma {:induction false} IdIsUnique(lib: Library, pairs: seq<string>, a: Option<Bytes32>, b: Option<Bytes32>)
    requires IdIs(lib, pairs, a) && IdIs(lib, pairs, b)
    ensures a == b
  {
    hide KeyOf, ValueOf, Unhex;
  }

  /**
   * A text is accepted as a snapshot exactly when it has the prefix, every pair is in order (any version named
   * is 1, every id and address decodes), and some pair names the id; the last such id counts, and the addresses
   * are those of all pairs in order.
   */
  lemma {:induction false} ParseIff(lib: Library, s: string, r: EndpointAddr)
    ensures Parse(lib, s) == Ok(r) <==> (
      && PREFIX <= s
      && var pairs := Split(s[|PREFIX|..], '&');
      PairsGive(lib, pairs, r.addrs) && exists i: nat :: NamesId(lib, pairs, i, r.id))
  {
    if PREFIX <= s {
      var pairs := Split(s[|PREFIX|..], '&');
      hide Split, ParsePairs, PairsGive, NamesId;
      ParsedPairsGive(lib, pairs);
      if PairsGive(lib, pairs, r.addrs) {
        GivenPairsParse(lib, pairs, r.addrs);
        var p := ParsePairs(lib, Progress(None, []), pairs).value;
        if exists i: nat :: NamesId(lib, pairs, i, r.id) {
          IdIsUnique(lib, pairs, p.id, Some(r.id));
        }
      }
    }
  }
}
