/** The frames of the animated QR code (android/.../addfriend/AddFriendPayload.kt, `FrameCodec`). */
module QrFrames {
  import opened Common
  import opened Texts
  import opened Base64
  import opened AddFriend

  const FRAME_HEAD := "dc://addframe?v=1"
  const FRAME_PREFIX := FRAME_HEAD + "&"
  const CHUNK_SIZE := 256
  const I32_MAX := 0x7FFF_FFFF

  // ---------------------------------------------------------------- numbers in text

  type Digit = d: int | 0 <= d < 10

  function DigitChar(d: Digit): char { '0' + d as char }

  function DigitOf(c: char): Option<Digit> { if '0' <= c <= '9' then Some((c - '0') as int) else None }

  function Decimal(n: nat): (r: string)
    ensures r != ""
  {
    if n < 10 then [DigitChar(n)] else Decimal(n / 10) + [DigitChar(n % 10)]
  }

  function Number(s: string): Option<nat> {
    if s == "" then Some(0) else
      match (Number(s[..|s| - 1]), DigitOf(s[|s| - 1]))
      case (Some(h), Some(d)) => Some(10 * h + d)
      case _ => None
  }

  /** `toIntOrNull`: an optional sign, decimal digits, a value of 32 bits. */
  function ToInt(s: string): Option<int> {
    if s == "" then None
    else if s[0] < '0' then
      if |s| == 1 || (s[0] != '-' && s[0] != '+') then None else
        match Number(s[1..])
        case None => None
        case Some(n) => InRange(if s[0] == '-' then 0 - n else n)
    else match Number(s) case None => None case Some(n) => InRange(n)
  }

  function InRange(x: int): Option<int> { if -I32_MAX - 1 <= x <= I32_MAX then Some(x) else None }

  lemma DigitRoundTrip(d: Digit)
    ensures DigitOf(DigitChar(d)) == Some(d) && DigitChar(d) >= '0' && DigitChar(d) != '&'
  {
  }

  lemma NumberStep(s: string, c: char)
    ensures Number(s + [c]) ==
      if Number(s).Some? && DigitOf(c).Some? then Some(10 * Number(s).value + DigitOf(c).value) else None
  {
    assert (s + [c])[..|s|] == s;
  }

  lemma {:induction false} DecimalRoundTrip(n: nat)
    ensures Number(Decimal(n)) == Some(n) && Decimal(n)[0] >= '0' && '&' !in Decimal(n)
  {
    hide DigitOf, DigitChar;
    DigitRoundTrip(n % 10);
    if n >= 10 {
      DecimalRoundTrip(n / 10);
      NumberStep(Decimal(n / 10), DigitChar(n % 10));
    } else {
      NumberStep("", DigitChar(n));
      assert "" + [DigitChar(n)] == [DigitChar(n)];
    }
  }

  lemma ToIntDecimal(n: nat)
    requires n <= I32_MAX
    ensures ToInt(Decimal(n)) == Some(n)
  {
    DecimalRoundTrip(n);
  }

  // ---------------------------------------------------------------- substrings

  /** Where `sub` first occurs. */
  function FindSub(s: string, sub: string): (r: Option<nat>)
    ensures r.Some? ==> r.value + |sub| <= |s|
  {
    if sub <= s then Some(0)
    else if s == "" then None
    else match FindSub(s[1..], sub) case None => None case Some(i) => Some(i + 1)
  }

  predicate Contains(s: string, sub: string) { FindSub(s, sub).Some? }

  /** `substringAfter(sub, "")`. */
  function After(s: string, sub: string): string {
    match FindSub(s, sub) case None => "" case Some(i) => s[i + |sub|..]
  }

  /** Text without `&` in front of a text is passed over by a search for something that starts with `&`. */
  lemma {:induction false} SkipPlain(pre: string, s: string, sub: string)
    requires '&' !in pre && sub != "" && sub[0] == '&'
    ensures Contains(pre + s, sub) == Contains(s, sub) && After(pre + s, sub) == After(s, sub)
  {
    if pre == "" {
      assert pre + s == s;
    } else {
      var whole := pre + s;
      assert whole[1..] == pre[1..] + s;
      SkipPlain(pre[1..], s, sub);
      assert whole[0] == pre[0];
    }
  }

  lemma SectionsShape(parts: seq<string>)
    ensures Sections(parts, '&') == "" || Sections(parts, '&')[0] == '&'
  {
  }

  lemma FindFurther(s: string, sub: string)
    requires s != "" && !(sub <= s)
    ensures Contains(s, sub) == Contains(s[1..], sub) && After(s, sub) == After(s[1..], sub)
  {
  }

  /** A word without `&` at the front of `p + rest` lies in `p`, if `rest` begins with `&`. */
  lemma {:induction false} PrefixStays(p: string, rest: string, w: string)
    requires '&' !in w && w <= p + rest && (rest == "" || rest[0] == '&')
    ensures w <= p
  {
    assert w != "" ==> w[0] == (p + rest)[0];
    if w != "" && p != "" {
      assert (p + rest)[1..] == p[1..] + rest;
      PrefixStays(p[1..], rest, w[1..]);
      assert w == [w[0]] + w[1..] && p == [p[0]] + p[1..];
    }
  }

  /** A part that does not begin with `w` hides no `&w`. */
  lemma SkipPart(parts: seq<string>, w: string)
    requires parts != [] && '&' !in parts[0] && '&' !in w && !(w <= parts[0])
    ensures Contains(Sections(parts, '&'), "&" + w) == Contains(Sections(parts[1..], '&'), "&" + w)
    ensures After(Sections(parts, '&'), "&" + w) == After(Sections(parts[1..], '&'), "&" + w)
  {
    var p, rest := parts[0], Sections(parts[1..], '&');
    var s, sub := Sections(parts, '&'), "&" + w;
    SectionsShape(parts[1..]);
    assert s == ['&'] + (p + rest);
    hide Contains, After, Sections;
    assert s[1..] == p + rest && sub[1..] == w;
    assert sub <= s ==> w <= p + rest;
    if w <= p + rest { PrefixStays(p, rest, w); }
    FindFurther(s, sub);
    SkipPlain(p, rest, sub);
  }

  lemma MeetPart(parts: seq<string>, w: string)
    requires parts != [] && w <= parts[0]
    ensures Contains(Sections(parts, '&'), "&" + w)
    ensures After(Sections(parts, '&'), "&" + w) == parts[0][|w|..] + Sections(parts[1..], '&')
  {
    var s, sub := Sections(parts, '&'), "&" + w;
    assert s == ['&'] + parts[0] + Sections(parts[1..], '&');
    assert s[..|sub|] == sub;
    assert FindSub(s, sub) == Some(0);
  }

  lemma EmptySections(w: string)
    ensures !Contains(Sections([], '&'), "&" + w)
  {
  }

  // ---------------------------------------------------------------- frames

  datatype Frame = Frame(sid: string, index: int, count: int)

  /** A frame text; `flag` is "1" for data and "0" for noise. */
  function FrameText(sid: string, i: nat, n: nat, flag: string, d: string): string {
    FRAME_HEAD + Sections(TextsOf(FrameFields(sid, i, n, flag, d)), '&')
  }

  function FrameFields(sid: string, i: nat, n: nat, flag: string, d: string): seq<Field> {
    [Field("s", sid), Field("i", Decimal(i)), Field("n", Decimal(n)), Field("f", flag), Field("d", d)]
  }

  predicate IsNoise(text: string) { Contains(text, "&f=0") }

  function ChunkOf(text: string): Option<string> {
    var d := After(text, "&d=");
    if d != "" && Contains(text, "&f=1") then Some(d) else None
  }

  function ParseFrame(text: string): Option<Frame> {
    if !(FRAME_PREFIX <= text) then None else FrameFromParams(Split(text[|FRAME_PREFIX|..], '&'))
  }

  function IntField(v: Option<string>): Option<int> { match v case None => None case Some(s) => ToInt(s) }

  function FrameFromParams(parts: seq<string>): Option<Frame> {
    var sid, i, n := Lookup(parts, "s"), IntField(Lookup(parts, "i")), IntField(Lookup(parts, "n"));
    if sid.None? || i.None? || n.None? || n.value <= 0 || !(0 <= i.value < n.value) then None
    else Some(Frame(sid.value, i.value, n.value))
  }

  // ---------------------------------------------------------------- splitting a payload

  function Count(text: string): nat { (|text| + CHUNK_SIZE - 1) / CHUNK_SIZE }

  function Piece(text: string, i: nat): string
    requires i < Count(text)
  {
    text[i * CHUNK_SIZE..Min((i + 1) * CHUNK_SIZE, |text|)]
  }

  function Data(j: Platform, text: string, i: nat): string
    requires i < Count(text)
  {
    B64(j.toUtf8(Piece(text, i)))
  }

  /** `FrameCodec.split`. */
  function SplitFrames(j: Platform, p: Payload, sid: string): seq<string> {
    var text := AddFriend.Encode(j, p);
    seq(Count(text), i requires 0 <= i < Count(text) => FrameText(sid, i, Count(text), "1", Data(j, text, i)))
  }

  // ---------------------------------------------------------------- reading frames back

  lemma FrameTextsAreClean(sid: string, i: nat, n: nat, flag: string, d: string)
    requires '&' !in sid && '&' !in d && '&' !in flag
    ensures var ts := TextsOf(FrameFields(sid, i, n, flag, d)); forall k :: 0 <= k < |ts| ==> '&' !in ts[k]
  {
    var fs := FrameFields(sid, i, n, flag, d);
    DecimalRoundTrip(i);
    DecimalRoundTrip(n);
    hide Decimal;
    forall k | 0 <= k < |fs| ensures '&' !in fs[k].Text() {
      assert '&' !in fs[k].key && '&' !in fs[k].value;
    }
  }

  lemma GetFrameFields(sid: string, i: nat, n: nat, flag: string, d: string)
    ensures var fs := FrameFields(sid, i, n, flag, d);
      Get(fs, "s") == Some(sid) && Get(fs, "i") == Some(Decimal(i)) && Get(fs, "n") == Some(Decimal(n))
  {
    var f1, f2, f3 := Field("s", sid), Field("i", Decimal(i)), Field("n", Decimal(n));
    var f4, f5 := Field("f", flag), Field("d", d);
    hide Decimal;
    assert FrameFields(sid, i, n, flag, d) == [f1] + [f2] + [f3] + [f4] + [f5];
    forall key: string | key == "s" || key == "i" || key == "n"
      ensures Get([f1] + [f2] + [f3] + [f4] + [f5], key) ==
        Some(if key == "n" then f3.value else if key == "i" then f2.value else f1.value)
    {
      GetLast([], f1, key);
      assert [] + [f1] == [f1];
      GetLast([f1], f2, key);
      GetLast([f1] + [f2], f3, key);
      GetLast([f1] + [f2] + [f3], f4, key);
      GetLast([f1] + [f2] + [f3] + [f4], f5, key);
    }
  }

  // ---------------------------------------------------------------- what is accepted, exactly

  ghost predicate OccursAt(s: string, sub: string, i: nat) { i + |sub| <= |s| && s[i..i + |sub|] == sub }

  ghost predicate Occurs(s: string, sub: string) { exists i: nat :: OccursAt(s, sub, i) }

  ghost predicate FirstAt(s: string, sub: string, i: nat) {
    OccursAt(s, sub, i) && forall k: nat :: k < i ==> !OccursAt(s, sub, k)
  }

  lemma {:induction false} FindSubFinds(s: string, sub: string)
    ensures match FindSub(s, sub) case Some(i) => FirstAt(s, sub, i) case None => !Occurs(s, sub)
  {
    assert sub <= s <==> OccursAt(s, sub, 0);
    if s != "" && !(sub <= s) {
      FindSubFinds(s[1..], sub);
      match FindSub(s[1..], sub)
      case Some(i) =>
        OccursShifted(s, sub, i);
        forall k: nat | 0 < k < i + 1 ensures !OccursAt(s, sub, k) { OccursShifted(s, sub, k - 1); }
      case None =>
        forall k: nat ensures !OccursAt(s, sub, k) {
          if k > 0 { OccursShifted(s, sub, k - 1); }
        }
    }
  }

  lemma OccursShifted(s: string, sub: string, k: nat)
    requires s != ""
    ensures OccursAt(s, sub, k + 1) <==> OccursAt(s[1..], sub, k)
  {
    if k + 1 + |sub| <= |s| { assert s[1..][k..k + |sub|] == s[k + 1..k + 1 + |sub|]; }
  }

  /** A text is noise exactly when the flag for noise occurs anywhere in it. */
  lemma {:induction false} NoiseIff(text: string)
    ensures IsNoise(text) <==> Occurs(text, "&f=0")
  {
    hide FindSub;
    FindSubFinds(text, "&f=0");
  }

  /** It carries data exactly when it is flagged so and something follows the first data field, up to its end. */
  lemma {:induction false} ChunkIff(text: string, d: string)
    ensures ChunkOf(text) == Some(d) <==> (
      && d != "" && Occurs(text, "&f=1")
      && exists i: nat :: FirstAt(text, "&d=", i) && text[i + 3..] == d)
  {
    FindSubFinds(text, "&d=");
    FindSubFinds(text, "&f=1");
    hide FindSub;
    var at := FindSub(text, "&d=");
    if at.Some? {
      forall i: nat | FirstAt(text, "&d=", i) ensures i == at.value { }
    }
  }

  ghost predicate AllDigits(s: string) { forall i :: 0 <= i < |s| ==> '0' <= s[i] <= '9' }

  lemma {:induction false} NumberIff(s: string)
    ensures Number(s).Some? <==> AllDigits(s)
  {
    if s != "" {
      NumberIff(s[..|s| - 1]);
      assert AllDigits(s) <==> AllDigits(s[..|s| - 1]) && '0' <= s[|s| - 1] <= '9';
    }
  }

  /** Numbers are read with an optional sign, and nothing else is a number. */
  lemma {:induction false} ToIntReads(n: nat)
    requires n <= I32_MAX
    ensures ToInt(Decimal(n)) == ToInt("+" + Decimal(n)) == Some(n) && ToInt("-" + Decimal(n)) == Some(0 - n as int)
  {
    DecimalRoundTrip(n);
    assert ("+" + Decimal(n))[1..] == Decimal(n) && ("-" + Decimal(n))[1..] == Decimal(n);
    hide Decimal, Number;
  }

  lemma {:induction false} ToIntIsNumber(s: string)
    requires ToInt(s).Some?
    ensures s != "" && -0x8000_0000 <= ToInt(s).value <= 0x7FFF_FFFF
    ensures var digits := if s[0] == '-' || s[0] == '+' then s[1..] else s; digits != "" && AllDigits(digits)
  {
    NumberIff(s);
    NumberIff(s[1..]);
    hide Number;
  }

  ghost predicate SaysInt(parts: seq<string>, key: string, x: int) {
    exists v :: Says(parts, key, v) && ToInt(v) == Some(x)
  }

  /** A text is a frame exactly when it says a session, an index and a count, with the index below the count. */
  lemma {:induction false} ParseFrameIff(text: string, f: Frame)
    ensures ParseFrame(text) == Some(f) <==> (
      && FRAME_PREFIX <= text && 0 <= f.index < f.count
      && var parts := Split(text[|FRAME_PREFIX|..], '&');
      Says(parts, "s", f.sid) && SaysInt(parts, "i", f.index) && SaysInt(parts, "n", f.count))
  {
    if FRAME_PREFIX <= text {
      var parts := Split(text[|FRAME_PREFIX|..], '&');
      LookupIff(parts, "s", f.sid);
      IntFieldIff(parts, "i", f.index);
      IntFieldIff(parts, "n", f.count);
      hide Split, Lookup, Says, SaysInt, IntField;
    }
  }

  lemma IntFieldIff(parts: seq<string>, key: string, x: int)
    requires key != "" && '=' !in key
    ensures IntField(Lookup(parts, key)) == Some(x) <==> SaysInt(parts, key, x)
  {
    hide Lookup, Says, ToInt;
    forall v ensures Lookup(parts, key) == Some(v) <==> Says(parts, key, v) {
      LookupIff(parts, key, v);
    }
  }

  lemma {:induction false} LookupIsFree(parts: seq<string>, key: string)
    requires forall p :: p in parts ==> '&' !in p
    ensures Lookup(parts, key).Some? ==> '&' !in Lookup(parts, key).value
  {
    if parts != [] {
      assert parts[|parts| - 1] in parts;
      LookupIsFree(parts[..|parts| - 1], key);
    }
  }

  /** A printed frame is parsed back to its session, index and count exactly when its session id is free of `&`. */
  lemma FrameParsesBackIff(sid: string, i: nat, n: nat, flag: string, d: string)
    requires '&' !in d && '&' !in flag && i < n <= I32_MAX
    ensures ParseFrame(FrameText(sid, i, n, flag, d)) == Some(Frame(sid, i, n)) <==> '&' !in sid
  {
    var text := FrameText(sid, i, n, flag, d);
    hide FrameText, Split, Lookup;
    if '&' !in sid {
      FrameParsesBack(sid, i, n, flag, d);
    } else if FRAME_PREFIX <= text {
      SplitPartsAreFree(text[|FRAME_PREFIX|..], '&');
      LookupIsFree(Split(text[|FRAME_PREFIX|..], '&'), "s");
    }
  }

  lemma FrameParsesBack(sid: string, i: nat, n: nat, flag: string, d: string)
    requires '&' !in sid && '&' !in d && '&' !in flag && i < n <= I32_MAX
    ensures ParseFrame(FrameText(sid, i, n, flag, d)) == Some(Frame(sid, i, n))
  {
    var fs, text := FrameFields(sid, i, n, flag, d), FrameText(sid, i, n, flag, d);
    var ts := TextsOf(fs);
    FrameTextsAreClean(sid, i, n, flag, d);
    GetFrameFields(sid, i, n, flag, d);
    FrameKeysArePlain(sid, i, n, flag, d);
    hide FrameFields, Get, TextsOf, Lookup, ToInt, Decimal;
    assert |ts| == 5 by { FieldCount(sid, i, n, flag, d); }
    assert ts == [ts[0]] + ts[1..];
    JoinIsSections(ts[0], ts[1..], '&');
    assert Sections(ts, '&') == ['&'] + ts[0] + Sections(ts[1..], '&');
    assert text == FRAME_PREFIX + Join(ts, '&');
    assert text[|FRAME_PREFIX|..] == Join(ts, '&');
    SplitJoin(ts, '&');
    LookupIsGet(fs, "s");
    LookupIsGet(fs, "i");
    LookupIsGet(fs, "n");
    ToIntDecimal(i);
    ToIntDecimal(n);
  }

  lemma FieldCount(sid: string, i: nat, n: nat, flag: string, d: string)
    ensures |FrameFields(sid, i, n, flag, d)| == 5
  {
  }

  lemma FrameKeysArePlain(sid: string, i: nat, n: nat, flag: string, d: string)
    ensures PlainKeys(FrameFields(sid, i, n, flag, d))
  {
  }

  /** Searching a frame for `&w`, where `w` begins with a letter other than `s`, `i` and `n`, starts at the flag. */
  lemma FromFlag(sid: string, i: nat, n: nat, flag: string, d: string, w: string)
    requires '&' !in sid && '&' !in d && '&' !in flag && '&' !in w
    requires w != "" && w[0] !in "sin"
    ensures var (text, tail) := (FrameText(sid, i, n, flag, d), Sections(["f" + "=" + flag, "d" + "=" + d], '&'));
      Contains(text, "&" + w) == Contains(tail, "&" + w) && After(text, "&" + w) == After(tail, "&" + w)
  {
    var ts := TextsOf(FrameFields(sid, i, n, flag, d));
    FrameTextsAreClean(sid, i, n, flag, d);
    assert ts[0][0] == 's' && ts[1][0] == 'i' && ts[2][0] == 'n';
    assert ts[1..][1..] == ts[2..] && ts[2..][1..] == ts[3..];
    assert ts[3..] == ["f" + "=" + flag, "d" + "=" + d];
    assert '&' !in FRAME_HEAD;
    hide FrameFields, TextsOf, Contains, After, Decimal;
    SkipPlain(FRAME_HEAD, Sections(ts, '&'), "&" + w);
    SkipPart(ts, w);
    SkipPart(ts[1..], w);
    SkipPart(ts[2..], w);
  }

  lemma TailIsNotNoise(d: string)
    requires '&' !in d
    ensures !Contains(Sections(["f=1", "d" + "=" + d], '&'), "&" + "f=0")
  {
    var tail := ["f=1", "d" + "=" + d];
    assert "f=0"[2] != "f=1"[2] && ("d" + "=" + d)[0] == 'd';
    assert tail[1..] == ["d" + "=" + d] && tail[1..][1..] == [];
    hide Contains, After, Sections;
    SkipPart(tail, "f=0");
    SkipPart(tail[1..], "f=0");
    EmptySections("f=0");
  }

  lemma TailYieldsData(d: string)
    requires '&' !in d
    ensures After(Sections(["f=1", "d" + "=" + d], '&'), "&" + "d=") == d
  {
    var tail := ["f=1", "d" + "=" + d];
    assert tail[1..] == ["d" + "=" + d] && tail[1..][1..] == [];
    assert "d="[0] != "f=1"[0];
    assert ("d" + "=" + d)[..2] == "d=" && ("d" + "=" + d)[2..] == d;
    NoSections();
    hide Contains, After, Sections;
    SkipPart(tail, "d=");
    MeetPart(tail[1..], "d=");
  }

  lemma NoSections()
    ensures Sections([], '&') == ""
  {
  }

  /** A data frame is not taken for noise and yields its data; a noise frame is taken for noise. */
  lemma DataFrameReadsBack(sid: string, i: nat, n: nat, d: string)
    requires '&' !in sid && '&' !in d && d != ""
    ensures !IsNoise(FrameText(sid, i, n, "1", d)) && ChunkOf(FrameText(sid, i, n, "1", d)) == Some(d)
  {
    assert "f" + "=" + "1" == "f=1" && "&" + "f=0" == "&f=0" && "&" + "f=1" == "&f=1" && "&" + "d=" == "&d=";
    hide FrameText, Contains, After, Sections;
    FromFlag(sid, i, n, "1", d, "f=0");
    TailIsNotNoise(d);
    FromFlag(sid, i, n, "1", d, "f=1");
    MeetPart(["f=1", "d" + "=" + d], "f=1");
    FromFlag(sid, i, n, "1", d, "d=");
    TailYieldsData(d);
  }

  lemma NoiseFrameIsNoise(sid: string, d: string)
    requires '&' !in sid && '&' !in d
    ensures IsNoise(FrameText(sid, 0, 1, "0", d))
  {
    var tail := ["f" + "=" + "0", "d" + "=" + d];
    assert "f" + "=" + "0" == "f=0" && "&" + "f=0" == "&f=0";
    hide FrameText, Contains, After, Sections;
    FromFlag(sid, 0, 1, "0", d, "f=0");
    MeetPart(tail, "f=0");
  }
}
