/**
 * The Bluetooth frame stream (android/.../ble/BleChannel.kt): frames are `[type][length:2][body]`,
 * cut into chunks by the link and put together again by `FrameSink`.
 */
module Frames {
  import opened Common

  const HEADER_LEN := 3
  const MAX_BODY := 4096

  type Bytes = seq<Byte>

  /** One frame; the type is cut to a byte and the length written big-endian. */
  function WireFrame(kind: int, body: Bytes): Bytes
    requires |body| <= MAX_BODY
  {
    [kind % 256, |body| / 256, |body| % 256] + body
  }

  function DeclaredLength(buf: Bytes): nat
    requires |buf| >= HEADER_LEN
  {
    (buf[1] as int) * 256 + buf[2]
  }

  // ---------------------------------------------------------------- draining a buffer

  datatype Drained = Drained(frames: seq<Bytes>, rest: Bytes)

  /** What one pass over a buffer yields: complete frames, then what stays for later. */
  function Drain(buf: Bytes): Drained {
    if |buf| < HEADER_LEN then Drained([], buf) else
      var total := HEADER_LEN + DeclaredLength(buf);
      if total > HEADER_LEN + MAX_BODY then Drained([], [])
      else if |buf| < total then Drained([], buf)
      else
        var tail := Drain(buf[total..]);
        Drained([buf[..total]] + tail.frames, tail.rest)
  }

  /** No byte follows an oversized header that the reassembler would meet in this stream. */
  ghost predicate CutSafe(stream: Bytes) {
    |stream| >= HEADER_LEN ==>
      if DeclaredLength(stream) > MAX_BODY then |stream| == HEADER_LEN
      else |stream| >= HEADER_LEN + DeclaredLength(stream) ==> CutSafe(stream[HEADER_LEN + DeclaredLength(stream)..])
  }

  function Concat(parts: seq<Bytes>): Bytes {
    if parts == [] then [] else parts[0] + Concat(parts[1..])
  }

  lemma Regroup(done: seq<Bytes>, next: Bytes, more: seq<Bytes>)
    ensures done + ([next] + more) == (done + [next]) + more
  {
  }

  class FrameSink {
    var buf: Bytes

    constructor ()
      ensures buf == []
    {
      buf := [];
    }

    method Feed(chunk: Bytes) returns (out: seq<Bytes>)
      modifies this
      ensures Drained(out, buf) == Drain(old(buf) + chunk)
      ensures |buf| < HEADER_LEN + MAX_BODY
    {
      buf := buf + chunk;
      ghost var all := buf;
      out := [];
      while |buf| >= HEADER_LEN
        invariant Drain(all).frames == out + Drain(buf).frames && Drain(all).rest == Drain(buf).rest
        decreases |buf|
      {
        var len := (buf[1] as int) * 256 + buf[2];
        var total := HEADER_LEN + len;
        if total > HEADER_LEN + MAX_BODY {
          buf := [];
          break;
        }
        if |buf| < total {
          break;
        }
        Regroup(out, buf[..total], Drain(buf[total..]).frames);
        out := out + [buf[..total]];
        buf := buf[total..];
      }
      RestIsShort(all);
      buf := if |buf| > HEADER_LEN + MAX_BODY then [] else buf;
    }

    method Reset()
      modifies this
      ensures buf == []
    {
      buf := [];
    }
  }

  /** What stays after a pass is always less than one maximal frame, so the closing guard is never taken. */
  lemma {:induction false} RestIsShort(buf: Bytes)
    ensures |Drain(buf).rest| < HEADER_LEN + MAX_BODY
  {
    if |buf| >= HEADER_LEN && HEADER_LEN + DeclaredLength(buf) <= |buf| && DeclaredLength(buf) <= MAX_BODY {
      RestIsShort(buf[HEADER_LEN + DeclaredLength(buf)..]);
    }
  }

  // ---------------------------------------------------------------- feeding chunk by chunk

  /** Feeds the chunks one by one from a given residue. */
  function FeedAll(buf: Bytes, chunks: seq<Bytes>): Drained
    decreases |chunks|
  {
    if chunks == [] then Drained([], buf) else
      var now := Drain(buf + chunks[0]);
      var later := FeedAll(now.rest, chunks[1..]);
      Drained(now.frames + later.frames, later.rest)
  }

  /** The buffer does not hold a complete frame yet. */
  ghost predicate Waiting(s: Bytes) {
    |s| < HEADER_LEN || (DeclaredLength(s) <= MAX_BODY && |s| < HEADER_LEN + DeclaredLength(s))
  }

  lemma {:induction false} WaitingDrains(s: Bytes)
    requires Waiting(s)
    ensures Drain(s) == Drained([], s) && CutSafe(s)
  {
  }

  lemma {:induction false} FirstFrame(s: Bytes, total: nat)
    requires HEADER_LEN <= |s| && total == HEADER_LEN + DeclaredLength(s) <= |s| && DeclaredLength(s) <= MAX_BODY
    ensures Drain(s).frames == [s[..total]] + Drain(s[total..]).frames && Drain(s).rest == Drain(s[total..]).rest
    ensures CutSafe(s) == CutSafe(s[total..])
  {
  }

  /** Draining a stream in two parts is draining it whole. */
  lemma {:induction false} DrainSplits(stream: Bytes, more: Bytes)
    requires CutSafe(stream + more)
    ensures CutSafe(stream) && CutSafe(Drain(stream).rest + more)
    ensures var d, e := Drain(stream), Drain(Drain(stream).rest + more);
      Drain(stream + more).frames == d.frames + e.frames && Drain(stream + more).rest == e.rest
    decreases |stream|
  {
    hide Drain, CutSafe;
    if |stream| >= HEADER_LEN && DeclaredLength(stream) > MAX_BODY {
      OversizedEnds(stream, more);
    } else if Waiting(stream) {
      WaitingDrains(stream);
      assert [] + Drain(stream + more).frames == Drain(stream + more).frames;
    } else {
      var total := HEADER_LEN + DeclaredLength(stream);
      FirstFrame(stream, total);
      SameFirstFrame(stream, more, total);
      DrainSplits(stream[total..], more);
      var d := Drain(stream[total..]);
      Prepend(stream[..total], d.frames, Drain(d.rest + more).frames);
    }
  }

  /** A complete first frame is cut off the longer stream in the same way. */
  lemma {:induction false} SameFirstFrame(stream: Bytes, more: Bytes, total: nat)
    requires HEADER_LEN <= |stream| && total == HEADER_LEN + DeclaredLength(stream) <= |stream|
    requires DeclaredLength(stream) <= MAX_BODY
    ensures var (whole, tail) := (stream + more, stream[total..] + more);
      && Drain(whole).frames == [stream[..total]] + Drain(tail).frames && Drain(whole).rest == Drain(tail).rest
      && CutSafe(whole) == CutSafe(tail)
  {
    hide Drain, CutSafe;
    var whole := stream + more;
    assert DeclaredLength(whole) == DeclaredLength(stream);
    assert whole[total..] == stream[total..] + more && whole[..total] == stream[..total];
    FirstFrame(whole, total);
  }

  lemma Prepend(first: Bytes, some: seq<Bytes>, rest: seq<Bytes>)
    ensures [first] + (some + rest) == ([first] + some) + rest
  {
  }

  lemma {:induction false} OversizedEnds(stream: Bytes, more: Bytes)
    requires |stream| >= HEADER_LEN && DeclaredLength(stream) > MAX_BODY && CutSafe(stream + more)
    ensures more == [] && stream + more == stream && CutSafe(stream)
    ensures Drain(stream) == Drained([], []) && Drain([]) == Drained([], []) && CutSafe([])
  {
    assert DeclaredLength(stream + more) == DeclaredLength(stream);
  }

  lemma {:induction false} AnyChunking(buf: Bytes, chunks: seq<Bytes>)
    requires CutSafe(buf + Concat(chunks)) && Drain(buf) == Drained([], buf)
    ensures FeedAll(buf, chunks) == Drain(buf + Concat(chunks))
    decreases |chunks|
  {
    if chunks == [] {
      assert buf + Concat(chunks) == buf;
    } else {
      var rest := Concat(chunks[1..]);
      assert buf + Concat(chunks) == (buf + chunks[0]) + rest;
      DrainSplits(buf + chunks[0], rest);
      var now := Drain(buf + chunks[0]);
      DrainedIsDry(buf + chunks[0]);
      AnyChunking(now.rest, chunks[1..]);
    }
  }

  /** Behind an oversized header everything is dropped, with or without the last byte. */
  lemma {:induction false} TailIsDropped(s: Bytes)
    requires !CutSafe(s)
    ensures |s| > HEADER_LEN && Drain(s).rest == [] && Drain(s[..|s| - 1]).rest == []
  {
    var front := s[..|s| - 1];
    if DeclaredLength(s) > MAX_BODY {
      assert DeclaredLength(front) == DeclaredLength(s);
    } else {
      var total := HEADER_LEN + DeclaredLength(s);
      TailIsDropped(s[total..]);
      assert front[total..] == s[total..][..|s[total..]| - 1];
      FirstFrame(front, total);
    }
  }

  lemma {:induction false} LastByteAlone(s: Bytes)
    requires !CutSafe(s)
    ensures var chunks := [s[..|s| - 1], s[|s| - 1..]];
      Concat(chunks) == s && FeedAll([], chunks) != Drain(s)
  {
    TailIsDropped(s);
    var front: Bytes, last: Bytes := s[..|s| - 1], s[|s| - 1..];
    TwoChunks(front, last);
    assert front + last == s;
    assert Drain(last) == Drained([], last);
  }

  lemma {:induction false} TwoChunks(a: Bytes, b: Bytes)
    ensures Concat([a, b]) == a + b
    ensures FeedAll([], [a, b]).rest == Drain(Drain(a).rest + b).rest
  {
    hide Drain;
    var chunks: seq<Bytes>, tail: seq<Bytes>, none: seq<Bytes> := [a, b], [b], [];
    assert chunks[1..] == tail && tail[1..] == none;
    assert Concat(none) == [] && b + [] == b && [] + a == a;
    assert Concat(tail) == b;
    assert FeedAll(Drain(a).rest, tail).rest == FeedAll(Drain(Drain(a).rest + b).rest, none).rest;
  }

  /**
   * Chunking independence, exactly: feeding a stream in any pieces yields the frames and the residue of
   * feeding it at once if and only if no byte follows an oversized header.
   */
  lemma {:induction false} ChunkingIndependentIff(stream: Bytes)
    ensures (forall chunks :: Concat(chunks) == stream ==> FeedAll([], chunks) == Drain(stream)) <==> CutSafe(stream)
  {
    if CutSafe(stream) {
      forall chunks | Concat(chunks) == stream ensures FeedAll([], chunks) == Drain(stream) {
        assert [] + Concat(chunks) == stream;
        AnyChunking([], chunks);
      }
    } else {
      LastByteAlone(stream);
    }
  }

  lemma {:induction false} DrainedIsDry(buf: Bytes)
    ensures Drain(Drain(buf).rest) == Drained([], Drain(buf).rest)
  {
    if |buf| >= HEADER_LEN && HEADER_LEN + DeclaredLength(buf) <= |buf| && DeclaredLength(buf) <= MAX_BODY {
      DrainedIsDry(buf[HEADER_LEN + DeclaredLength(buf)..]);
    }
  }

  // ---------------------------------------------------------------- frames in, frames out

  ghost predicate IsFrame(f: Bytes) {
    HEADER_LEN <= |f| == HEADER_LEN + DeclaredLength(f) && DeclaredLength(f) <= MAX_BODY
  }

  lemma {:induction false} WireFrameIsFrame(kind: int, body: Bytes)
    requires |body| <= MAX_BODY
    ensures IsFrame(WireFrame(kind, body)) && WireFrame(kind, body)[HEADER_LEN..] == body
    ensures WireFrame(kind, body)[0] == kind % 256
  {
  }

  lemma {:induction false} FramesDrain(frames: seq<Bytes>)
    requires forall f :: f in frames ==> IsFrame(f)
    ensures CutSafe(Concat(frames)) && Drain(Concat(frames)) == Drained(frames, [])
  {
    if frames != [] {
      FramesDrain(frames[1..]);
      var stream := Concat(frames);
      assert frames[0] in frames;
      assert DeclaredLength(stream) == DeclaredLength(frames[0]);
      assert stream[..|frames[0]|] == frames[0] && stream[|frames[0]|..] == Concat(frames[1..]);
      assert frames == [frames[0]] + frames[1..];
    }
  }

  /** `splitForChunk`: one piece if it fits, else pieces of `size` bytes and a shorter last one. */
  function SplitForChunk(frame: Bytes, size: int): seq<Bytes>
    requires |frame| <= size || size > 0
  {
    if |frame| <= size then [frame] else Chunked(frame, size)
  }

  function Chunked(s: Bytes, size: nat): seq<Bytes>
    requires size > 0
  {
    if s == [] then [] else if |s| <= size then [s] else [s[..size]] + Chunked(s[size..], size)
  }

  lemma {:induction false} ChunkedCovers(s: Bytes, size: nat)
    requires size > 0
    ensures Concat(Chunked(s, size)) == s && forall c :: c in Chunked(s, size) ==> 0 < |c| <= size
  {
    if |s| > size { ChunkedCovers(s[size..], size); }
  }

  /** The pieces of a frame fit the link and are as few as that allows: all but the last are full. */
  lemma {:induction false} PiecesFit(frame: Bytes, size: nat)
    requires size > 0
    ensures var pieces := SplitForChunk(frame, size);
      && pieces != [] && Concat(pieces) == frame && (forall c :: c in pieces ==> |c| <= size)
      && forall i :: 0 <= i < |pieces| - 1 ==> |pieces[i]| == size
  {
    ChunkedCovers(frame, size);
    ChunksAreFull(frame, size);
    assert Concat([frame]) == frame + Concat([frame][1..]);
  }

  lemma {:induction false} ChunksAreFull(s: Bytes, size: nat)
    requires size > 0
    ensures var pieces := Chunked(s, size);
      (s != [] ==> pieces != []) && forall i :: 0 <= i < |pieces| - 1 ==> |pieces[i]| == size
  {
    if |s| > size { ChunksAreFull(s[size..], size); }
  }

  lemma {:induction false} ConcatAppend(a: seq<Bytes>, b: seq<Bytes>)
    ensures Concat(a + b) == Concat(a) + Concat(b)
  {
    if a == [] {
      assert a + b == b;
    } else {
      assert (a + b)[1..] == a[1..] + b;
      ConcatAppend(a[1..], b);
    }
  }

  /** Each frame split at a size of its own. */
  function SplitEach(frames: seq<Bytes>, sizes: seq<int>): seq<Bytes>
    requires |sizes| == |frames| && forall i :: 0 <= i < |sizes| ==> sizes[i] > 0
  {
    if frames == [] then [] else SplitForChunk(frames[0], sizes[0]) + SplitEach(frames[1..], sizes[1..])
  }

  lemma {:induction false} SplitEachCovers(frames: seq<Bytes>, sizes: seq<int>)
    requires |sizes| == |frames| && forall i :: 0 <= i < |sizes| ==> sizes[i] > 0
    ensures Concat(SplitEach(frames, sizes)) == Concat(frames)
  {
    if frames != [] {
      SplitEachCovers(frames[1..], sizes[1..]);
      ChunkedCovers(frames[0], sizes[0]);
      ConcatAppend(SplitForChunk(frames[0], sizes[0]), SplitEach(frames[1..], sizes[1..]));
    }
  }

  /** Frames sent in chunks of any positive sizes arrive as exactly those frames, in order, with nothing left over. */
  lemma {:induction false} FramesArriveIntact(frames: seq<Bytes>, sizes: seq<int>)
    requires forall f :: f in frames ==> IsFrame(f)
    requires |sizes| == |frames| && forall i :: 0 <= i < |sizes| ==> sizes[i] > 0
    ensures FeedAll([], SplitEach(frames, sizes)) == Drained(frames, [])
  {
    WaitingDrains([]);
    hide Drain, CutSafe, FeedAll, SplitEach, Concat;
    SplitEachCovers(frames, sizes);
    FramesDrain(frames);
    assert [] + Concat(frames) == Concat(frames);
    AnyChunking([], SplitEach(frames, sizes));
  }

  /** For example, behind an oversized header the place of a cut decides whether a frame survives. */
  lemma OversizedHeaderBreaksIndependence()
    ensures var (bad, good) := ([1, 255, 255], [3, 0, 0]);
      && !CutSafe(bad + good)
      && FeedAll([], [bad, good]).frames == [good]
      && FeedAll([], [bad + good]).frames == []
  {
    var bad: Bytes, good: Bytes := [1, 255, 255], [3, 0, 0];
    assert Drain(bad) == Drained([], []) && Drain(bad + good) == Drained([], []);
    assert [] + bad == bad && [] + good == good && [] + (bad + good) == bad + good;
    assert good[3..] == [] && good[..3] == good && Drain([]) == Drained([], []);
    assert Drain(good) == Drained([good], []);
    assert [bad, good][1..] == [good] && [good][1..] == [];
    assert FeedAll([], [good]).frames == [good];
  }
}
