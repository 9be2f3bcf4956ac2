/**
 * base64url without padding (crates/core/src/node.rs, `b64` and `unb64`; section 5 of RFC 4648).
 * The reference is the bit string: octets and sextets are two ways to cut it.
 */
module Base64 {
  import opened Common

  type Bytes = seq<Byte>
  type Sextet = d: int | 0 <= d < 64

  const U32_MOD := 0x1_0000_0000

  // ---------------------------------------------------------------- bit strings

  function Pow2(n: nat): (p: nat)
    ensures p > 0
  {
    if n == 0 then 1 else 2 * Pow2(n - 1)
  }

  /** The `w` low bits of `v`, most significant first. */
  function Bits(v: nat, w: nat): (r: seq<bool>)
    ensures |r| == w
  {
    if w == 0 then [] else Bits(v / 2, w - 1) + [v % 2 == 1]
  }

  function OctetBits(s: Bytes): (r: seq<bool>)
    ensures |r| == 8 * |s|
  {
    if s == [] then [] else Bits(s[0], 8) + OctetBits(s[1..])
  }

  function SextetBits(s: seq<Sextet>): (r: seq<bool>)
    ensures |r| == 6 * |s|
  {
    if s == [] then [] else Bits(s[0], 6) + SextetBits(s[1..])
  }

  /** `v >> k` and `h << k`. */
  function Shr(v: nat, k: nat): nat { if k == 0 then v else Shr(v / 2, k - 1) }

  function Shl(h: nat, k: nat): nat { if k == 0 then h else 2 * Shl(h, k - 1) }

  lemma {:induction false} BitsSplit(v: nat, a: nat, b: nat)
    ensures Bits(v, a + b) == Bits(Shr(v, b), a) + Bits(v, b)
  {
    if b > 0 {
      BitsSplit(v / 2, a, b - 1);
      assert Bits(v, a + b) == Bits(v / 2, a + b - 1) + [v % 2 == 1];
    }
  }

  /** Only the low `w` bits matter. */
  lemma {:induction false} BitsOfSum(h: nat, v: nat, k: nat, w: nat)
    requires w <= k
    ensures Bits(Shl(h, k) + v, w) == Bits(v, w)
  {
    if w > 0 {
      BitsOfSum(h, v / 2, k - 1, w - 1);
      assert (2 * Shl(h, k - 1) + v) / 2 == Shl(h, k - 1) + v / 2;
    }
  }

  lemma {:induction false} ShrTwice(v: nat, a: nat, b: nat)
    ensures Shr(v, a + b) == Shr(Shr(v, a), b)
  {
    if a > 0 { ShrTwice(v / 2, a - 1, b); }
  }

  lemma {:induction false} ShlTwice(v: nat, a: nat, b: nat)
    ensures Shl(v, a + b) == Shl(Shl(v, a), b)
  {
    if b > 0 { ShlTwice(v, a, b - 1); }
  }

  lemma Shr2(v: nat)
    ensures Shr(v, 2) == v / 4
  {
    assert Shr(v / 2, 1) == v / 2 / 2;
  }

  lemma Shr6And8(v: nat)
    ensures Shr(v, 6) == v / 64 && Shr(v, 8) == v / 256
  {
    Shr2(v);
    Shr2(v / 4);
    Shr2(v / 16);
    Shr2(v / 64);
    ShrTwice(v, 2, 2);
    ShrTwice(v, 4, 2);
    ShrTwice(v, 6, 2);
  }

  lemma ShrValues(v: nat)
    ensures Shr(v, 6) == v / 64 && Shr(v, 12) == v / 4096 && Shr(v, 18) == v / 262144
    ensures Shr(v, 8) == v / 256 && Shr(v, 16) == v / 65536
  {
    Shr6And8(v);
    Shr6And8(v / 64);
    Shr6And8(v / 4096);
    Shr6And8(v / 256);
    ShrTwice(v, 6, 6);
    ShrTwice(v, 12, 6);
    ShrTwice(v, 8, 8);
  }

  lemma Shl6And8(h: nat)
    ensures Shl(h, 2) == 4 * h && Shl(h, 6) == 64 * h && Shl(h, 8) == 256 * h
  {
    assert Shl(h, 1) == 2 * h;
    assert Shl(h, 3) == 8 * h;
    assert Shl(h, 5) == 32 * h;
  }

  lemma ShlValues(h: nat)
    ensures Shl(h, 6) == 64 * h && Shl(h, 8) == 256 * h && Shl(h, 26) == 0x400_0000 * h
  {
    Shl6And8(h);
    Shl6And8(256 * h);
    Shl6And8(65536 * h);
    Shl6And8(0x100_0000 * h);
    ShlTwice(h, 8, 8);
    ShlTwice(h, 16, 8);
    ShlTwice(h, 24, 2);
  }

  lemma {:induction false} BitsInjective(u: nat, v: nat, w: nat)
    requires u < Pow2(w) && v < Pow2(w) && Bits(u, w) == Bits(v, w)
    ensures u == v
  {
    if w > 0 {
      assert Bits(u, w)[..w - 1] == Bits(u / 2, w - 1) && Bits(v, w)[..w - 1] == Bits(v / 2, w - 1);
      assert Bits(u, w)[w - 1] == Bits(v, w)[w - 1];
      BitsInjective(u / 2, v / 2, w - 1);
    }
  }

  lemma {:induction false} BitsOfZero(w: nat)
    ensures forall i :: 0 <= i < w ==> !Bits(0, w)[i]
  {
    if w > 0 { BitsOfZero(w - 1); }
  }

  lemma Powers()
    ensures Pow2(6) == 64 && Pow2(8) == 256
  {
    assert Pow2(4) == 16;
    assert Pow2(6) == 64;
  }

  lemma {:induction false} OctetBitsInjective(s: Bytes, t: Bytes)
    requires |s| == |t| && OctetBits(s) == OctetBits(t)
    ensures s == t
  {
    if s != [] {
      assert OctetBits(s)[..8] == Bits(s[0], 8) && OctetBits(t)[..8] == Bits(t[0], 8);
      assert OctetBits(s)[8..] == OctetBits(s[1..]) && OctetBits(t)[8..] == OctetBits(t[1..]);
      Powers();
      BitsInjective(s[0], t[0], 8);
      OctetBitsInjective(s[1..], t[1..]);
      assert s == [s[0]] + s[1..] && t == [t[0]] + t[1..];
    }
  }

  lemma {:induction false} SextetBitsInjective(s: seq<Sextet>, t: seq<Sextet>)
    requires |s| == |t| && SextetBits(s) == SextetBits(t)
    ensures s == t
  {
    if s != [] {
      assert SextetBits(s)[..6] == Bits(s[0], 6) && SextetBits(t)[..6] == Bits(t[0], 6);
      assert SextetBits(s)[6..] == SextetBits(s[1..]) && SextetBits(t)[6..] == SextetBits(t[1..]);
      Powers();
      BitsInjective(s[0], t[0], 6);
      SextetBitsInjective(s[1..], t[1..]);
      assert s == [s[0]] + s[1..] && t == [t[0]] + t[1..];
    }
  }

  lemma {:induction false} SextetBitsAppend(s: seq<Sextet>, t: seq<Sextet>)
    ensures SextetBits(s + t) == SextetBits(s) + SextetBits(t)
  {
    if s == [] {
      assert s + t == t;
    } else {
      assert (s + t)[1..] == s[1..] + t;
      SextetBitsAppend(s[1..], t);
    }
  }

  lemma {:induction false} OctetBitsAppend(s: Bytes, t: Bytes)
    ensures OctetBits(s + t) == OctetBits(s) + OctetBits(t)
  {
    if s == [] {
      assert s + t == t;
    } else {
      assert (s + t)[1..] == s[1..] + t;
      OctetBitsAppend(s[1..], t);
    }
  }

  // ---------------------------------------------------------------- the alphabet

  function Symbol(d: Sextet): char {
    if d < 26 then 'A' + d as char
    else if d < 52 then 'a' + (d - 26) as char
    else if d < 62 then '0' + (d - 52) as char
    else if d == 62 then '-' else '_'
  }

  function Value(c: char): Option<Sextet> {
    if 'A' <= c <= 'Z' then Some((c - 'A') as int)
    else if 'a' <= c <= 'z' then Some((c - 'a') as int + 26)
    else if '0' <= c <= '9' then Some((c - '0') as int + 52)
    else if c == '-' then Some(62)
    else if c == '_' then Some(63)
    else None
  }

  lemma SymbolValue(d: Sextet)
    ensures Value(Symbol(d)) == Some(d)
  {
  }

  lemma ValueSymbol(c: char)
    ensures Value(c).Some? ==> Symbol(Value(c).value) == c
  {
  }

  /** The alphabet of section 5 of RFC 4648. */
  lemma AlphabetIs(d: Sextet)
    ensures d < 26 ==> Symbol(d) == "ABCDEFGHIJKLMNOPQRSTUVWXYZ"[d]
    ensures 26 <= d < 52 ==> Symbol(d) == "abcdefghijklmnopqrstuvwxyz"[d - 26]
    ensures 52 <= d ==> Symbol(d) == "0123456789-_"[d - 52]
  {
  }

  function Symbols(s: seq<Sextet>): (r: string)
    ensures |r| == |s|
  {
    seq(|s|, i requires 0 <= i < |s| => Symbol(s[i]))
  }

  predicate IsAlphabetic(s: string) { forall c :: c in s ==> Value(c).Some? }

  function Values(s: string): (r: seq<Sextet>)
    requires IsAlphabetic(s)
    ensures |r| == |s|
  {
    seq(|s|, i requires 0 <= i < |s| => Value(s[i]).value)
  }

  lemma SymbolsValues(d: seq<Sextet>)
    ensures IsAlphabetic(Symbols(d)) && Values(Symbols(d)) == d
  {
    forall c | c in Symbols(d) ensures Value(c).Some? {
      var i :| 0 <= i < |d| && c == Symbol(d[i]);
      SymbolValue(d[i]);
    }
    forall i | 0 <= i < |d| ensures Values(Symbols(d))[i] == d[i] {
      SymbolValue(d[i]);
    }
  }

  // ---------------------------------------------------------------- encoding

  /** Up to three octets, missing ones read as zero. */
  function Filled(g: Bytes): (r: Bytes)
    requires 1 <= |g| <= 3
    ensures |r| == 3 && r[..|g|] == g
  {
    if |g| == 1 then g + [0, 0] else if |g| == 2 then g + [0] else g
  }

  function GroupValue(g: Bytes): (n: nat)
    requires |g| == 3
    ensures n < 0x100_0000
  {
    (g[0] as int) * 65536 + (g[1] as int) * 256 + g[2]
  }

  function FourSextets(n: nat): seq<Sextet> { [n / 262144 % 64, n / 4096 % 64, n / 64 % 64, n % 64] }

  /** One sextet more than there are octets. */
  function EncodeGroup(g: Bytes): seq<Sextet>
    requires 1 <= |g| <= 3
  {
    FourSextets(GroupValue(Filled(g)))[..|g| + 1]
  }

  function Encode(s: Bytes): seq<Sextet> {
    if s == [] then []
    else if |s| <= 3 then EncodeGroup(s)
    else EncodeGroup(s[..3]) + Encode(s[3..])
  }

  function B64(s: Bytes): string { Symbols(Encode(s)) }

  lemma LowBits(v: nat)
    ensures Bits(v % 64, 6) == Bits(v, 6) && Bits(v % 256, 8) == Bits(v, 8)
  {
    ShlValues(v / 64);
    ShlValues(v / 256);
    BitsOfSum(v / 64, v % 64, 6, 6);
    BitsOfSum(v / 256, v % 256, 8, 8);
  }

  lemma GroupOctets(n: nat)
    requires n < 0x100_0000
    ensures Bits(n, 24) == Bits(n / 65536, 8) + Bits(n / 256 % 256, 8) + Bits(n % 256, 8)
  {
    hide Bits, Shr;
    ShrValues(n);
    BitsSplit(n, 8, 16);
    BitsSplit(n, 8, 8);
    LowBits(n / 256);
    LowBits(n);
  }

  lemma GroupSextets(n: nat)
    requires n < 0x100_0000
    ensures Bits(n, 24) == Bits(n / 262144 % 64, 6) + Bits(n / 4096 % 64, 6) + Bits(n / 64 % 64, 6) + Bits(n % 64, 6)
  {
    hide Bits, Shr;
    ShrValues(n);
    BitsSplit(n, 6, 18);
    BitsSplit(n, 6, 12);
    BitsSplit(n, 6, 6);
    LowBits(n / 262144);
    LowBits(n / 4096);
    LowBits(n / 64);
    LowBits(n);
  }

  ghost predicate AllZero(b: seq<bool>) { forall i :: 0 <= i < |b| ==> !b[i] }

  /** The sextets are the octets' bits, cut anew and filled up with zero bits. */
  ghost predicate Recuts(d: seq<Sextet>, s: Bytes) {
    && |d| == (4 * |s| + 2) / 3
    && SextetBits(d)[..8 * |s|] == OctetBits(s)
    && AllZero(SextetBits(d)[8 * |s|..])
  }

  lemma FourSextetBits(n: nat)
    requires n < 0x100_0000
    ensures SextetBits(FourSextets(n)) == Bits(n, 24)
  {
    hide Bits;
    var d := FourSextets(n);
    GroupSextets(n);
    assert d[1..] == [d[1], d[2], d[3]] && d[1..][1..] == [d[2], d[3]] && d[1..][1..][1..] == [d[3]];
    assert SextetBits([d[3]]) == Bits(d[3], 6);
    assert SextetBits([d[2], d[3]]) == Bits(d[2], 6) + Bits(d[3], 6);
    assert SextetBits([d[1], d[2], d[3]]) == Bits(d[1], 6) + (Bits(d[2], 6) + Bits(d[3], 6));
  }

  lemma GroupValueParts(g: Bytes)
    requires |g| == 3
    ensures var n := GroupValue(g); n / 65536 == g[0] && n / 256 % 256 == g[1] && n % 256 == g[2]
  {
    var a: int, b: int, c: int := g[0], g[1], g[2];
    var high, low := 256 * a + b, 256 * b + c;
    assert GroupValue(g) == 256 * high + c == 65536 * a + low;
    assert (256 * high + c) / 256 == high && (65536 * a + low) / 65536 == a;
  }

  lemma ThreeOctetBits(g: Bytes)
    requires |g| == 3
    ensures OctetBits(g) == Bits(GroupValue(g), 24) == Bits(g[0], 8) + Bits(g[1], 8) + Bits(g[2], 8)
  {
    hide Bits, GroupValue;
    GroupValueParts(g);
    GroupOctets(GroupValue(g));
    assert g[1..] == [g[1], g[2]] && g[1..][1..] == [g[2]];
    assert OctetBits([g[2]]) == Bits(g[2], 8);
    assert OctetBits([g[1], g[2]]) == Bits(g[1], 8) + Bits(g[2], 8);
  }

  lemma SextetBitsPrefix(d: seq<Sextet>, k: nat)
    requires k <= |d|
    ensures SextetBits(d[..k]) == SextetBits(d)[..6 * k]
  {
    assert d == d[..k] + d[k..];
    SextetBitsAppend(d[..k], d[k..]);
  }

  lemma OctetBitsPrefix(g: Bytes, k: nat)
    requires k <= |g|
    ensures OctetBits(g[..k]) == OctetBits(g)[..8 * k]
  {
    assert g == g[..k] + g[k..];
    OctetBitsAppend(g[..k], g[k..]);
  }

  /** Cutting a 24-bit group after `k` sextets keeps the bits of its octets; the rest are those of absent octets. */
  lemma CutGroup(all: seq<bool>, b0: seq<bool>, b1: seq<bool>, b2: seq<bool>, octets: nat)
    requires |b0| == |b1| == |b2| == 8 && all == b0 + b1 + b2 && 1 <= octets <= 3
    requires (octets < 2 ==> AllZero(b1)) && (octets < 3 ==> AllZero(b2))
    ensures var cut := all[..6 * (octets + 1)];
      cut[..8 * octets] == all[..8 * octets] && AllZero(cut[8 * octets..])
  {
    var cut := all[..6 * (octets + 1)];
    forall i | 8 * octets <= i < |cut| ensures !cut[i] {
      assert cut[i] == if i < 16 then b1[i - 8] else b2[i - 16];
    }
  }

  lemma GroupRecuts(g: Bytes)
    requires 1 <= |g| <= 3
    ensures Recuts(EncodeGroup(g), g)
  {
    hide Bits, OctetBits, SextetBits;
    var full := Filled(g);
    var n := GroupValue(full);
    ThreeOctetBits(full);
    FourSextetBits(n);
    SextetBitsPrefix(FourSextets(n), |g| + 1);
    OctetBitsPrefix(full, |g|);
    BitsOfZero(8);
    CutGroup(Bits(n, 24), Bits(full[0], 8), Bits(full[1], 8), Bits(full[2], 8), |g|);
  }

  lemma {:induction false} EncodeRecuts(s: Bytes)
    ensures Recuts(Encode(s), s)
  {
    hide EncodeGroup;
    if 1 <= |s| <= 3 {
      GroupRecuts(s);
    } else if |s| > 3 {
      GroupRecuts(s[..3]);
      EncodeRecuts(s[3..]);
      SextetBitsAppend(EncodeGroup(s[..3]), Encode(s[3..]));
      OctetBitsAppend(s[..3], s[3..]);
      assert s == s[..3] + s[3..];
      var head, tail := SextetBits(EncodeGroup(s[..3])), SextetBits(Encode(s[3..]));
      assert |head| == 24;
      assert (head + tail)[..8 * |s|] == head + tail[..8 * (|s| - 3)];
      assert (head + tail)[8 * |s|..] == tail[8 * (|s| - 3)..];
    }
  }

  /** One turn of the encoding loop. */
  method EncodeChunk(chunk: Bytes) returns (group: string)
    requires 1 <= |chunk| <= 3
    ensures group == Symbols(EncodeGroup(chunk))
  {
    var b0: int := chunk[0];
    var b1: int := if |chunk| > 1 then chunk[1] else 0;
    var b2: int := if |chunk| > 2 then chunk[2] else 0;
    var n := b0 * 65536 + b1 * 256 + b2;
    group := [Symbol(n / 262144 % 64), Symbol(n / 4096 % 64)];
    if |chunk| > 1 { group := group + [Symbol(n / 64 % 64)]; }
    if |chunk| > 2 { group := group + [Symbol(n % 64)]; }
    assert GroupValue(Filled(chunk)) == n;
  }

  method EncodeText(bytes: Bytes) returns (out: string)
    ensures out == B64(bytes)
  {
    hide EncodeGroup, Symbols, Encode;
    out := "";
    var i := 0;
    assert bytes[0..] == bytes;
    while i < |bytes|
      invariant 0 <= i <= |bytes|
      invariant Symbols(Encode(bytes)) == out + Symbols(Encode(bytes[i..]))
      decreases |bytes| - i
    {
      var chunk := bytes[i..Min(i + 3, |bytes|)];
      var group := EncodeChunk(chunk);
      EncodeStep(bytes[i..]);
      if |bytes| - i > 3 {
        assert bytes[i..][..3] == chunk && bytes[i..][3..] == bytes[i + 3..];
      } else {
        assert bytes[i..] == chunk && bytes[i + |chunk|..] == [];
      }
      out := out + group;
      i := i + |chunk|;
    }
    assert bytes[i..] == [];
    EncodeEmpty();
  }

  lemma EncodeEmpty()
    ensures Symbols(Encode([])) == ""
  {
  }

  lemma SymbolsAppend(a: seq<Sextet>, b: seq<Sextet>)
    ensures Symbols(a + b) == Symbols(a) + Symbols(b)
  {
  }

  lemma EncodeStep(s: Bytes)
    requires s != []
    ensures |s| > 3 ==> Symbols(Encode(s)) == Symbols(EncodeGroup(s[..3])) + Symbols(Encode(s[3..]))
    ensures |s| <= 3 ==> Symbols(Encode(s)) == Symbols(EncodeGroup(s)) + Symbols(Encode([]))
  {
    hide EncodeGroup, Symbols;
    if |s| > 3 {
      SymbolsAppend(EncodeGroup(s[..3]), Encode(s[3..]));
    } else {
      assert EncodeGroup(s) + [] == EncodeGroup(s);
      SymbolsAppend(EncodeGroup(s), []);
    }
  }

  // ---------------------------------------------------------------- decoding

  /** `(acc << 6) | v` on 32 bits: the shift drops the six high bits, and leaves the six low ones free for `v`. */
  function ShiftedIn(acc: nat, v: Sextet): (r: nat)
    ensures r < U32_MOD
  {
    WrapKeepsLow(acc);
    acc * 64 % U32_MOD + v
  }

  lemma WrapKeepsLow(acc: nat)
    ensures acc * 64 % U32_MOD == acc % 0x400_0000 * 64
  {
  }

  /** The decoding loop, from an accumulator of which the low `bits` bits are pending; `acc` wraps at 32 bits. */
  function DecodeFrom(s: string, acc: nat, bits: nat): Option<Bytes>
    requires bits < 8 && acc < U32_MOD
  {
    if s == "" then Some([]) else
      match Value(s[0])
      case None => None
      case Some(v) =>
        var acc' := ShiftedIn(acc, v);
        if bits + 6 < 8 then DecodeFrom(s[1..], acc', bits + 6) else
          match DecodeFrom(s[1..], acc', bits - 2)
          case None => None
          case Some(rest) => Some([Shr(acc', bits - 2) % 256] + rest)
  }

  function Unb64(s: string): Option<Bytes> {
    if |s| % 4 == 1 then None else DecodeFrom(s, 0, 0)
  }

  ghost function Prefixed(out: Bytes, r: Option<Bytes>): Option<Bytes> {
    match r case None => None case Some(rest) => Some(out + rest)
  }

  lemma Regroup(out: Bytes, b: Byte, r: Option<Bytes>)
    ensures Prefixed(out, Prefixed([b], r)) == Prefixed(out + [b], r)
  {
    if r.Some? { assert out + ([b] + r.value) == out + [b] + r.value; }
  }

  /** One turn of the decoding loop. */
  lemma DecodeStep(s: string, acc: nat, bits: nat)
    requires bits < 8 && acc < U32_MOD && s != ""
    ensures Value(s[0]).None? ==> DecodeFrom(s, acc, bits) == None
    ensures Value(s[0]).Some? ==>
      var acc' := ShiftedIn(acc, Value(s[0]).value);
      DecodeFrom(s, acc, bits) ==
        if bits + 6 < 8 then DecodeFrom(s[1..], acc', bits + 6)
        else Prefixed([Shr(acc', bits - 2) % 256], DecodeFrom(s[1..], acc', bits - 2))
  {
  }

  method DecodeText(s: string) returns (r: Option<Bytes>)
    ensures r == Unb64(s)
  {
    if |s| % 4 == 1 {
      return None;
    }
    var out: Bytes := [];
    var acc: nat, bits: nat := 0, 0;
    NothingPrefixed(DecodeFrom(s, 0, 0));
    assert s[0..] == s;
    hide DecodeFrom, ShiftedIn, Shr;
    for i := 0 to |s|
      invariant bits < 8 && acc < U32_MOD
      invariant Unb64(s) == Prefixed(out, DecodeFrom(s[i..], acc, bits))
    {
      DecodeStep(s[i..], acc, bits);
      assert s[i..][0] == s[i] && s[i..][1..] == s[i + 1..];
      var v := Value(s[i]);
      if v.None? {
        return None;
      }
      acc := ShiftedIn(acc, v.value);
      bits := bits + 6;
      if bits >= 8 {
        bits := bits - 8;
        Regroup(out, Shr(acc, bits) % 256, DecodeFrom(s[i + 1..], acc, bits));
        out := out + [Shr(acc, bits) % 256];
      }
    }
    assert s[|s|..] == "";
    DecodeEnd(acc, bits);
    NothingMore(out);
    r := Some(out);
  }

  lemma DecodeEnd(acc: nat, bits: nat)
    requires bits < 8 && acc < U32_MOD
    ensures DecodeFrom("", acc, bits) == Some([])
  {
  }

  lemma NothingPrefixed(r: Option<Bytes>)
    ensures Prefixed([], r) == r
  {
    if r.Some? { assert [] + r.value == r.value; }
  }

  lemma NothingMore(out: Bytes)
    ensures Prefixed(out, Some([])) == Some(out)
  {
    assert out + [] == out;
  }

  /** Shifting six bits in appends them to the pending ones, although the accumulator wraps. */
  lemma ShiftIn(acc: nat, bits: nat, v: Sextet)
    requires bits < 8 && acc < U32_MOD
    ensures Bits(ShiftedIn(acc, v), bits + 6) == Bits(acc, bits) + Bits(v, 6)
  {
    hide Bits;
    var high, low: nat := acc / 0x400_0000, acc % 0x400_0000;
    WrapKeepsLow(acc);
    var shifted: nat := low * 64 + v;
    assert ShiftedIn(acc, v) == shifted;
    hide ShiftedIn, Shr, Shl;
    BitsSplit(shifted, bits, 6);
    ShrValues(shifted);
    ShlValues(low);
    BitsOfSum(low, v, 6, 6);
    ShlValues(high);
    BitsOfSum(high, low, 26, bits);
  }

  lemma EmitByte(acc: nat, keep: nat)
    ensures Bits(acc, 8 + keep) == Bits(Shr(acc, keep) % 256, 8) + Bits(acc, keep)
  {
    BitsSplit(acc, 8, keep);
    LowBits(Shr(acc, keep));
  }

  /** `out` is the leading whole octets of the bit string `all`. */
  ghost predicate LeadingOctets(out: Bytes, all: seq<bool>) {
    |out| == |all| / 8 && OctetBits(out) == all[..8 * |out|]
  }

  lemma OneMoreOctet(b: Byte, rest: Bytes, all: seq<bool>)
    requires LeadingOctets(rest, all)
    ensures LeadingOctets([b] + rest, Bits(b, 8) + all)
  {
    var more := Bits(b, 8) + all;
    assert ([b] + rest)[1..] == rest;
    assert |more| / 8 == 1 + |all| / 8;
    assert more[..8 * |[b] + rest|] == Bits(b, 8) + all[..8 * |rest|];
  }

  lemma ValuesStep(s: string)
    requires s != "" && IsAlphabetic(s)
    ensures IsAlphabetic(s[1..]) && Value(s[0]) == Some(Values(s)[0])
    ensures SextetBits(Values(s)) == Bits(Values(s)[0], 6) + SextetBits(Values(s[1..]))
  {
    assert Values(s)[1..] == Values(s[1..]);
  }

  lemma {:induction false} DecodesAlphabet(s: string, acc: nat, bits: nat)
    requires bits < 8 && acc < U32_MOD
    ensures DecodeFrom(s, acc, bits).Some? <==> IsAlphabetic(s)
  {
    if s != "" {
      assert s == [s[0]] + s[1..];
      if Value(s[0]).Some? {
        var acc' := ShiftedIn(acc, Value(s[0]).value);
        DecodesAlphabet(s[1..], acc', if bits + 6 < 8 then bits + 6 else bits - 2);
      }
    }
  }

  /** Decoding cuts the pending bits and all sextets into octets and drops what is left. */
  lemma {:induction false} DecodeRecuts(s: string, acc: nat, bits: nat)
    requires bits < 8 && acc < U32_MOD && IsAlphabetic(s)
    ensures DecodeFrom(s, acc, bits).Some?
    ensures LeadingOctets(DecodeFrom(s, acc, bits).value, Bits(acc, bits) + SextetBits(Values(s)))
  {
    DecodesAlphabet(s, acc, bits);
    if s == "" {
      assert Bits(acc, bits) + SextetBits(Values(s)) == Bits(acc, bits);
    } else {
      DecodeRecutsStep(s, acc, bits);
      var acc' := ShiftedIn(acc, Values(s)[0]);
      ValuesStep(s);
      DecodeRecuts(s[1..], acc', if bits + 6 < 8 then bits + 6 else bits - 2);
    }
  }

  lemma {:induction false} DecodeRecutsStep(s: string, acc: nat, bits: nat)
    requires bits < 8 && acc < U32_MOD && IsAlphabetic(s) && s != "" && IsAlphabetic(s[1..])
    requires DecodeFrom(s, acc, bits).Some?
    ensures var (acc', next) := (ShiftedIn(acc, Values(s)[0]), if bits + 6 < 8 then bits + 6 else bits - 2);
      var r := DecodeFrom(s[1..], acc', next);
      r.Some? && (LeadingOctets(r.value, Bits(acc', next) + SextetBits(Values(s[1..]))) ==>
        LeadingOctets(DecodeFrom(s, acc, bits).value, Bits(acc, bits) + SextetBits(Values(s))))
  {
    hide DecodeFrom, ShiftedIn, Shr, LeadingOctets, Bits, IsAlphabetic, SextetBits, Values;
    ValuesStep(s);
    DecodeStep(s, acc, bits);
    var v := Values(s)[0];
    var acc' := ShiftedIn(acc, v);
    ShiftIn(acc, bits, v);
    var tail := SextetBits(Values(s[1..]));
    Associate(Bits(acc, bits), Bits(v, 6), tail);
    if bits + 6 >= 8 {
      EmitByte(acc', bits - 2);
      var b := Shr(acc', bits - 2) % 256;
      Associate(Bits(b, 8), Bits(acc', bits - 2), tail);
      var r := DecodeFrom(s[1..], acc', bits - 2);
      if LeadingOctets(r.value, Bits(acc', bits - 2) + tail) {
        OneMoreOctet(b, r.value, Bits(acc', bits - 2) + tail);
      }
    }
  }

  lemma Associate(a: seq<bool>, b: seq<bool>, c: seq<bool>)
    ensures a + (b + c) == (a + b) + c
  {
  }

  // ---------------------------------------------------------------- main results

  /** Exactly the alphabetic texts of length not 1 mod 4 decode, to ⌊6n/8⌋ octets of their bit string. */
  lemma Unb64Meaning(s: string)
    ensures Unb64(s).Some? <==> |s| % 4 != 1 && IsAlphabetic(s)
    ensures Unb64(s).Some? ==>
      var out := Unb64(s).value;
      |out| == 6 * |s| / 8 && OctetBits(out) == SextetBits(Values(s))[..8 * |out|]
  {
    DecodesAlphabet(s, 0, 0);
    if IsAlphabetic(s) {
      DecodeRecuts(s, 0, 0);
      assert Bits(0, 0) + SextetBits(Values(s)) == SextetBits(Values(s));
    }
  }

  lemma RoundTrip(x: Bytes)
    ensures Unb64(B64(x)) == Some(x)
  {
    var d := Encode(x);
    EncodeRecuts(x);
    SymbolsValues(d);
    LengthsMatch(|x|);
    Unb64Meaning(B64(x));
    OctetBitsInjective(Unb64(B64(x)).value, x);
  }

  lemma LengthsMatch(n: nat)
    ensures 6 * ((4 * n + 2) / 3) / 8 == n && (4 * n + 2) / 3 % 4 != 1
  {
    var k, r := n / 3, n % 3;
    assert n == 3 * k + r;
    assert (4 * n + 2) / 3 == 4 * k + (4 * r + 2) / 3;
  }

  /** The bits of a decodable text that decoding drops. */
  ghost function Dropped(s: string): seq<bool>
    requires Unb64(s).Some?
  {
    Unb64Meaning(s);
    SextetBits(Values(s))[8 * |Unb64(s).value|..]
  }

  /** The other direction: a decodable text is the encoding of its value iff the dropped bits are zero. */
  lemma CanonicalIff(s: string)
    requires Unb64(s).Some?
    ensures B64(Unb64(s).value) == s <==> AllZero(Dropped(s))
  {
    Unb64Meaning(s);
    var out, d := Unb64(s).value, Values(s);
    EncodeRecuts(out);
    var e := Encode(out);
    TextLengthMatches(|s|);
    assert |e| == |d|;
    SymbolsValues(e);
    var cut := 8 * |out|;
    assert SextetBits(d) == SextetBits(d)[..cut] + SextetBits(d)[cut..];
    assert SextetBits(e) == SextetBits(e)[..cut] + SextetBits(e)[cut..];
    if AllZero(SextetBits(d)[cut..]) {
      assert SextetBits(d)[cut..] == SextetBits(e)[cut..];
      SextetBitsInjective(d, e);
      forall i | 0 <= i < |s| ensures B64(out)[i] == s[i] {
        ValueSymbol(s[i]);
      }
    }
  }

  lemma TextLengthMatches(n: nat)
    requires n % 4 != 1
    ensures (4 * (6 * n / 8) + 2) / 3 == n
  {
    var k, r := n / 4, n % 4;
    assert n == 4 * k + r;
    assert 6 * n / 8 == 3 * k + 6 * r / 8;
  }

  /** The output holds letters, digits, `-` and `_` only, so it never contains a separator. */
  lemma NoSeparators(x: Bytes, c: char)
    requires Value(c).None?
    ensures c !in B64(x)
  {
    SymbolsValues(Encode(x));
  }
}
