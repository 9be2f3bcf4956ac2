/** The add-friend link (android/.../addfriend/AddFriendPayload.kt): `dc://add?v=2&...` and back. */
module AddFriend {
  import opened Common
  import opened Texts
  import opened Base64

  const SCHEME_PREFIX := "dc://add?v=2&"

  /** `naddr` is the empty text when the node has no snapshot yet. */
  datatype Payload = Payload(
    name: string, identity: Bytes, bundle: Bytes, bucket: Bytes, token: Bytes, ble: Bytes, naddr: string)

  /** The JVM's Base64 URL decoder (`None` where it throws) and its UTF-8 conversions. */
  datatype Platform = Platform(decode: string -> Option<Bytes>, toUtf8: string -> Bytes, fromUtf8: Bytes -> string)

  /** What is relied on: the decoder inverts the unpadded encoder, UTF-8 is lossless. */
  ghost predicate Faithful(j: Platform) {
    && (forall x: Bytes :: j.decode(B64(x)) == Some(x))
    && (forall s: string :: j.fromUtf8(j.toUtf8(s)) == s)
    && j.toUtf8("") == []
  }

  predicate IsNameChar(c: char) {
    'A' <= c <= 'Z' || 'a' <= c <= 'z' || '0' <= c <= '9' || c == '.' || c == '_' || c == '-'
  }

  predicate IsName(s: string) { 1 <= |s| <= 64 && forall c :: c in s ==> IsNameChar(c) }

  /** The checks of the constructor. */
  predicate IsValid(p: Payload) {
    && IsName(p.name)
    && |p.identity| == 33 && |p.bucket| == 32 && |p.token| == 48 && |p.ble| == 8
    && 256 <= |p.bundle| <= 6144
  }

  // ---------------------------------------------------------------- key=value lists

  /** The pair in a part, unless it has no `=` or an empty key. */
  function PairOf(part: string): Option<(string, string)> {
    var i := Find(part, '=');
    if i == |part| || i == 0 then None else Some((part[..i], part[i + 1..]))
  }

  /** Looking a key up after `toMap`: the last part with that key wins. */
  function Lookup(parts: seq<string>, key: string): Option<string> {
    if parts == [] then None else
      var n := |parts| - 1;
      match PairOf(parts[n])
      case Some((k, v)) => if k == key then Some(v) else Lookup(parts[..n], key)
      case None => Lookup(parts[..n], key)
  }

  /** A list of fields, each printed as `key=value`. */
  datatype Field = Field(key: string, value: string) {
    function Text(): string { key + "=" + value }
  }

  function TextsOf(fields: seq<Field>): (r: seq<string>)
    ensures |r| == |fields|
  {
    seq(|fields|, i requires 0 <= i < |fields| => fields[i].Text())
  }

  ghost predicate PlainKeys(fields: seq<Field>) {
    forall i :: 0 <= i < |fields| ==> fields[i].key != "" && '=' !in fields[i].key
  }

  function Get(fields: seq<Field>, key: string): Option<string> {
    if fields == [] then None else
      var f := fields[|fields| - 1];
      if f.key == key then Some(f.value) else Get(fields[..|fields| - 1], key)
  }

  lemma FieldText(f: Field)
    requires f.key != "" && '=' !in f.key
    ensures PairOf(f.Text()) == Some((f.key, f.value))
  {
    PairAt(f.key, f.value);
  }

  lemma {:induction false} LookupIsGet(fields: seq<Field>, key: string)
    requires PlainKeys(fields)
    ensures Lookup(TextsOf(fields), key) == Get(fields, key)
  {
    hide PairOf;
    if fields != [] {
      var n := |fields| - 1;
      FieldText(fields[n]);
      assert TextsOf(fields)[..n] == TextsOf(fields[..n]);
      LookupIsGet(fields[..n], key);
    }
  }

  // ---------------------------------------------------------------- encode and parse

  function NaddrFields(j: Platform, p: Payload): seq<Field> {
    if p.naddr == "" then [] else [Field("naddr", B64(j.toUtf8(p.naddr)))]
  }

  function Fields(j: Platform, p: Payload): seq<Field> {
    [Field("name", p.name), Field("id", B64(p.identity)), Field("bundle", B64(p.bundle)),
     Field("bucket", B64(p.bucket)), Field("token", B64(p.token)), Field("ble", B64(p.ble))]
    + NaddrFields(j, p)
  }

  function Encode(j: Platform, p: Payload): string { SCHEME_PREFIX + Join(TextsOf(Fields(j, p)), '&') }

  function Decoded(j: Platform, v: Option<string>): Option<Bytes> {
    match v case None => None case Some(s) => j.decode(s)
  }

  function FromParams(j: Platform, parts: seq<string>): Option<Payload> {
    match Lookup(parts, "name")
    case None => None
    case Some(name) =>
      var id, bundle := Decoded(j, Lookup(parts, "id")), Decoded(j, Lookup(parts, "bundle"));
      var bucket, token := Decoded(j, Lookup(parts, "bucket")), Decoded(j, Lookup(parts, "token"));
      var ble, naddr := Decoded(j, Lookup(parts, "ble")), Decoded(j, Lookup(parts, "naddr"));
      if !IsName(name) || id.None? || bundle.None? || bucket.None? || token.None? || ble.None? then None else
        var p := Payload(name, id.value, bundle.value, bucket.value, token.value, ble.value,
                         if naddr.None? then "" else j.fromUtf8(naddr.value));
        if IsValid(p) then Some(p) else None
  }

  function Parse(j: Platform, text: string): Option<Payload> {
    if !(SCHEME_PREFIX <= text) then None else FromParams(j, Split(text[|SCHEME_PREFIX|..], '&'))
  }

  // ---------------------------------------------------------------- round trip

  lemma FieldsAreClean(j: Platform, p: Payload)
    requires IsValid(p)
    ensures forall t :: t in TextsOf(Fields(j, p)) ==> '&' !in t
  {
    var fs := Fields(j, p);
    assert !IsNameChar('&') && Value('&').None?;
    NoSeparators(p.identity, '&');
    NoSeparators(p.bundle, '&');
    NoSeparators(p.bucket, '&');
    NoSeparators(p.token, '&');
    NoSeparators(p.ble, '&');
    NoSeparators(j.toUtf8(p.naddr), '&');
    forall i | 0 <= i < |fs| ensures '&' !in fs[i].Text() {
      assert '&' !in fs[i].key && '&' !in fs[i].value;
    }
  }

  lemma GetLast(fields: seq<Field>, f: Field, key: string)
    ensures Get(fields + [f], key) == if f.key == key then Some(f.value) else Get(fields, key)
  {
  }

  lemma GetFields(j: Platform, p: Payload)
    ensures var fs := Fields(j, p);
      && Get(fs, "name") == Some(p.name) && Get(fs, "id") == Some(B64(p.identity))
      && Get(fs, "bundle") == Some(B64(p.bundle)) && Get(fs, "bucket") == Some(B64(p.bucket))
      && Get(fs, "token") == Some(B64(p.token)) && Get(fs, "ble") == Some(B64(p.ble))
      && Get(fs, "naddr") == if p.naddr == "" then None else Some(B64(j.toUtf8(p.naddr)))
  {
    var f1, f2, f3 := Field("name", p.name), Field("id", B64(p.identity)), Field("bundle", B64(p.bundle));
    var f4, f5, f6 := Field("bucket", B64(p.bucket)), Field("token", B64(p.token)), Field("ble", B64(p.ble));
    var six := [f1, f2, f3, f4, f5, f6];
    assert six == [f1] + [f2] + [f3] + [f4] + [f5] + [f6];
    hide B64;
    forall key: string
      ensures Get(six, key) == if key == "ble" then Some(f6.value) else if key == "token" then Some(f5.value)
        else if key == "bucket" then Some(f4.value) else if key == "bundle" then Some(f3.value)
        else if key == "id" then Some(f2.value) else if key == "name" then Some(f1.value) else None
    {
      GetLast([], f1, key);
      assert [] + [f1] == [f1];
      GetLast([f1], f2, key);
      GetLast([f1] + [f2], f3, key);
      GetLast([f1] + [f2] + [f3], f4, key);
      GetLast([f1] + [f2] + [f3] + [f4], f5, key);
      GetLast([f1] + [f2] + [f3] + [f4] + [f5], f6, key);
    }
    if p.naddr == "" {
      assert Fields(j, p) == six;
    } else {
      var f7 := Field("naddr", B64(j.toUtf8(p.naddr)));
      assert Fields(j, p) == six + [f7];
      forall key: string ensures Get(six + [f7], key) == if key == "naddr" then Some(f7.value) else Get(six, key) {
        GetLast(six, f7, key);
      }
    }
  }

  lemma FieldKeysArePlain(j: Platform, p: Payload)
    ensures PlainKeys(Fields(j, p))
  {
  }

  lemma EncodedParts(j: Platform, p: Payload)
    requires IsValid(p)
    ensures SCHEME_PREFIX <= Encode(j, p)
    ensures Split(Encode(j, p)[|SCHEME_PREFIX|..], '&') == TextsOf(Fields(j, p))
  {
    assert Fields(j, p) != [];
    hide Split, TextsOf, Fields;
    FieldsAreClean(j, p);
    SplitJoin(TextsOf(Fields(j, p)), '&');
    assert Encode(j, p)[|SCHEME_PREFIX|..] == Join(TextsOf(Fields(j, p)), '&');
  }

  lemma FieldsReadBack(j: Platform, p: Payload)
    requires Faithful(j) && IsValid(p)
    ensures FromParams(j, TextsOf(Fields(j, p))) == Some(p)
  {
    hide Fields, B64, Lookup, TextsOf, Get;
    var fs := Fields(j, p);
    FieldKeysArePlain(j, p);
    LookupIsGet(fs, "name");
    LookupIsGet(fs, "id");
    LookupIsGet(fs, "bundle");
    LookupIsGet(fs, "bucket");
    LookupIsGet(fs, "token");
    LookupIsGet(fs, "ble");
    LookupIsGet(fs, "naddr");
    GetFields(j, p);
  }

  /** Every valid payload is parsed back from its link, with or without a snapshot. */
  lemma PayloadRoundTrip(j: Platform, p: Payload)
    requires Faithful(j) && IsValid(p)
    ensures Parse(j, Encode(j, p)) == Some(p)
  {
    hide FromParams, Encode, TextsOf, Fields, Split;
    EncodedParts(j, p);
    FieldsReadBack(j, p);
  }

  // ---------------------------------------------------------------- what is accepted, exactly

  /** Part `i` is the last one for `key`, and says `v`. */
  ghost predicate IsLastFor(parts: seq<string>, i: nat, key: string, v: string) {
    i < |parts| && parts[i] == key + "=" + v && forall m :: i < m < |parts| ==> !(key + "=" <= parts[m])
  }

  ghost predicate Says(parts: seq<string>, key: string, v: string) { exists i: nat :: IsLastFor(parts, i, key, v) }

  lemma PairOfIff(part: string, key: string)
    requires key != "" && '=' !in key
    ensures key + "=" <= part <==> PairOf(part).Some? && PairOf(part).value.0 == key
    ensures key + "=" <= part ==> part == key + "=" + PairOf(part).value.1
  {
    if key + "=" <= part {
      var v := part[|key| + 1..];
      assert part == key + "=" + v;
      PairAt(key, v);
    }
  }

  /** Looking a key up is finding its last part. */
  lemma {:induction false} LookupIff(parts: seq<string>, key: string, v: string)
    requires key != "" && '=' !in key
    ensures Lookup(parts, key) == Some(v) <==> Says(parts, key, v)
  {
    if parts != [] {
      var n := |parts| - 1;
      LookupIff(parts[..n], key, v);
      PairOfIff(parts[n], key);
      hide PairOf;
      if key + "=" <= parts[n] {
        var w := PairOf(parts[n]).value.1;
        assert parts[n] == key + "=" + w;
        assert v == w ==> IsLastFor(parts, n, key, v);
        assert parts[n] == key + "=" + v ==> parts[n][|key| + 1..] == v == w;
      } else {
        assert forall i: nat :: IsLastFor(parts, i, key, v) <==> IsLastFor(parts[..n], i, key, v);
      }
    }
  }

  ghost predicate SaysBytes(j: Platform, parts: seq<string>, key: string, b: Bytes) {
    exists v :: Says(parts, key, v) && j.decode(v) == Some(b)
  }

  lemma DecodedIff(j: Platform, parts: seq<string>, key: string, b: Bytes)
    requires key != "" && '=' !in key
    ensures Decoded(j, Lookup(parts, key)) == Some(b) <==> SaysBytes(j, parts, key, b)
  {
    hide Lookup, Says;
    forall v ensures Lookup(parts, key) == Some(v) <==> Says(parts, key, v) {
      LookupIff(parts, key, v);
    }
  }

  /** Every field within its bounds. */
  ghost predicate InBounds(p: Payload) {
    && 1 <= |p.name| <= 64
    && (forall c :: c in p.name ==> 'A' <= c <= 'Z' || 'a' <= c <= 'z' || '0' <= c <= '9' || c in "._-")
    && |p.identity| == 33 && |p.bucket| == 32 && |p.token| == 48 && |p.ble| == 8 && 256 <= |p.bundle| <= 6144
  }

  /** The snapshot is optional: one that is absent or cannot be decoded counts as empty. */
  ghost predicate SaysNaddr(j: Platform, parts: seq<string>, naddr: string) {
    if exists b :: SaysBytes(j, parts, "naddr", b)
    then exists b :: SaysBytes(j, parts, "naddr", b) && naddr == j.fromUtf8(b)
    else naddr == ""
  }

  /** A text is accepted as a payload exactly when it says so, field by field. */
  lemma {:induction false} ParseIff(j: Platform, text: string, p: Payload)
    ensures Parse(j, text) == Some(p) <==> (
      && SCHEME_PREFIX <= text && InBounds(p)
      && var parts := Split(text[|SCHEME_PREFIX|..], '&');
      && Says(parts, "name", p.name) && SaysBytes(j, parts, "id", p.identity)
      && SaysBytes(j, parts, "bundle", p.bundle) && SaysBytes(j, parts, "bucket", p.bucket)
      && SaysBytes(j, parts, "token", p.token) && SaysBytes(j, parts, "ble", p.ble)
      && SaysNaddr(j, parts, p.naddr))
  {
    if SCHEME_PREFIX <= text {
      var parts := Split(text[|SCHEME_PREFIX|..], '&');
      ValidIff(p);
      LookupIff(parts, "name", p.name);
      DecodedIff(j, parts, "id", p.identity);
      DecodedIff(j, parts, "bundle", p.bundle);
      DecodedIff(j, parts, "bucket", p.bucket);
      DecodedIff(j, parts, "token", p.token);
      DecodedIff(j, parts, "ble", p.ble);
      NaddrIff(j, parts, p.naddr);
      hide Split, Lookup, Says, SaysBytes, SaysNaddr, InBounds, Decoded, IsName;
      ParamsIff(j, parts, p);
    }
  }

  lemma ValidIff(p: Payload)
    ensures IsValid(p) <==> InBounds(p)
  {
  }

  lemma NaddrIff(j: Platform, parts: seq<string>, naddr: string)
    ensures var d := Decoded(j, Lookup(parts, "naddr"));
      SaysNaddr(j, parts, naddr) <==> naddr == if d.None? then "" else j.fromUtf8(d.value)
  {
    hide Lookup, SaysBytes, Decoded;
    forall b ensures Decoded(j, Lookup(parts, "naddr")) == Some(b) <==> SaysBytes(j, parts, "naddr", b) {
      DecodedIff(j, parts, "naddr", b);
    }
  }

  lemma ParamsIff(j: Platform, parts: seq<string>, p: Payload)
    ensures FromParams(j, parts) == Some(p) <==> (
      && IsValid(p) && Lookup(parts, "name") == Some(p.name)
      && Decoded(j, Lookup(parts, "id")) == Some(p.identity) && Decoded(j, Lookup(parts, "bundle")) == Some(p.bundle)
      && Decoded(j, Lookup(parts, "bucket")) == Some(p.bucket) && Decoded(j, Lookup(parts, "token")) == Some(p.token)
      && Decoded(j, Lookup(parts, "ble")) == Some(p.ble)
      && var d := Decoded(j, Lookup(parts, "naddr")); p.naddr == if d.None? then "" else j.fromUtf8(d.value))
  {
    hide Lookup, Decoded, IsName;
  }
}
