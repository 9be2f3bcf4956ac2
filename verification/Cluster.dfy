/**
 * The consensus among peer clock samples (crates/core/src/clock.rs, `peak_cluster`):
 * sort the fresh offsets, cut them where neighbours are more than a minute apart,
 * keep the longest piece and take its median.
 */
module Cluster {
  import opened Common

  const CLUSTER_TOLERANCE_MS := 60_000
  const PEER_QUORUM := 3

  ghost predicate Sorted(s: seq<int>) {
    forall i, j :: 0 <= i < j < |s| ==> s[i] <= s[j]
  }

  // ---------------------------------------------------------------- sorting

  /** How many leading elements of a sorted sequence lie below `x`. */
  function Rank(s: seq<int>, x: int): (k: nat)
    requires Sorted(s)
    ensures k <= |s|
    ensures forall i :: 0 <= i < k ==> s[i] < x
    ensures forall i :: k <= i < |s| ==> s[i] >= x
  {
    if s == [] || s[0] >= x then 0 else 1 + Rank(s[1..], x)
  }

  function Insert(s: seq<int>, x: int): (r: seq<int>)
    requires Sorted(s)
    ensures Sorted(r) && multiset(r) == multiset(s) + multiset{x}
  {
    var k := Rank(s, x);
    InsertAt(s, x, k);
    s[..k] + [x] + s[k..]
  }

  lemma {:induction false} InsertAt(s: seq<int>, x: int, k: nat)
    requires Sorted(s) && k <= |s|
    requires (forall i :: 0 <= i < k ==> s[i] < x) && forall i :: k <= i < |s| ==> s[i] >= x
    ensures Sorted(s[..k] + [x] + s[k..])
    ensures multiset(s[..k] + [x] + s[k..]) == multiset(s) + multiset{x}
  {
    var r := s[..k] + [x] + s[k..];
    forall i, j | 0 <= i < j < |r| ensures r[i] <= r[j] {
      assert r[i] == if i < k then s[i] else if i == k then x else s[i - 1];
      assert r[j] == if j < k then s[j] else if j == k then x else s[j - 1];
    }
    hide Sorted;
    assert s == s[..k] + s[k..];
    assert multiset(s) == multiset(s[..k]) + multiset(s[k..]);
  }

  lemma HasElement(m: multiset<int>)
    requires m != multiset{}
    ensures exists x :: x in m
  {
    assert (forall x :: x !in m) ==> m == multiset{};
  }

  /** The one sorted arrangement of a multiset of offsets. */
  ghost function Arrange(m: multiset<int>): (r: seq<int>)
    ensures Sorted(r) && multiset(r) == m
    ensures |r| == |m|
    decreases |m|
  {
    if m == multiset{} then [] else
      HasElement(m);
      var x :| x in m;
      Insert(Arrange(m - multiset{x}), x)
  }

  lemma TailMultiset(s: seq<int>)
    requires s != []
    ensures multiset(s[1..]) == multiset(s) - multiset{s[0]}
  {
    assert s == [s[0]] + s[1..];
  }

  lemma SameHead(a: seq<int>, b: seq<int>)
    requires Sorted(a) && Sorted(b) && multiset(a) == multiset(b) && a != [] && b != []
    ensures a[0] == b[0]
  {
    assert a[0] in multiset(b) && b[0] in multiset(a);
    assert a[0] in b && b[0] in a;
  }

  lemma {:induction false} SortedIsUnique(a: seq<int>, b: seq<int>)
    requires Sorted(a) && Sorted(b) && multiset(a) == multiset(b)
    ensures a == b
  {
    assert |a| == |multiset(a)| == |multiset(b)| == |b|;
    if a != [] {
      SameHead(a, b);
      TailMultiset(a);
      TailMultiset(b);
      SortedIsUnique(a[1..], b[1..]);
      assert a == [a[0]] + a[1..] && b == [b[0]] + b[1..];
    }
  }

  /** `sort_unstable`: whatever order the values arrive in, their arrangement comes out. */
  method SortUnstable(xs: seq<int>) returns (r: seq<int>)
    ensures r == Arrange(multiset(xs))
  {
    r := [];
    for i := 0 to |xs|
      invariant Sorted(r) && multiset(r) == multiset(xs[..i])
    {
      assert xs[..i + 1] == xs[..i] + [xs[i]];
      r := Insert(r, xs[i]);
    }
    assert xs[..|xs|] == xs;
    SortedIsUnique(r, Arrange(multiset(xs)));
  }

  // ---------------------------------------------------------------- segments

  predicate Close(s: seq<int>, i: nat)
    requires i + 1 < |s|
  {
    s[i + 1] - s[i] <= CLUSTER_TOLERANCE_MS
  }

  /** `s[lo..hi]` is a segment whose neighbouring gaps are all within the tolerance. */
  ghost predicate Chained(s: seq<int>, lo: int, hi: int) {
    0 <= lo < hi <= |s| && forall i :: lo <= i < hi - 1 ==> Close(s, i)
  }

  /** The first among the longest chained segments. */
  ghost predicate IsPeak(s: seq<int>, lo: int, hi: int) {
    && Chained(s, lo, hi)
    && forall l, h :: Chained(s, l, h) ==> h - l < hi - lo || (h - l == hi - lo && lo <= l)
  }

  /** Where the scan stands after `i` offsets: the best closed segment and the start of the open one. */
  datatype Progress = Progress(bestLo: nat, bestHi: nat, runLo: nat)

  function Scan(s: seq<int>, i: nat): Progress
    requires 1 <= i <= |s|
  {
    if i == 1 then Progress(0, 0, 0) else
      var p := Scan(s, i - 1);
      if Close(s, i - 2) then p
      else if i - 1 - p.runLo > p.bestHi - p.bestLo then Progress(p.runLo, i - 1, i - 1)
      else p.(runLo := i - 1)
  }

  ghost predicate ScanShape(i: nat, p: Progress) { p.bestLo <= p.bestHi <= p.runLo < i }

  ghost predicate ScanInvariant(s: seq<int>, i: nat, p: Progress) {
    && i <= |s| && ScanShape(i, p)
    && Chained(s, p.runLo, i)
    && (p.runLo > 0 ==> !Close(s, p.runLo - 1))
    && (p.runLo > 0 ==> Chained(s, p.bestLo, p.bestHi))
    && forall l, h :: Chained(s, l, h) && h <= p.runLo ==>
         h - l < p.bestHi - p.bestLo || (h - l == p.bestHi - p.bestLo && p.bestLo <= l)
  }

  lemma {:induction false} ScanKeepsInvariant(s: seq<int>, i: nat)
    requires 1 <= i <= |s|
    ensures ScanInvariant(s, i, Scan(s, i))
  {
    if i > 1 {
      ScanKeepsInvariant(s, i - 1);
      var p, q := Scan(s, i - 1), Scan(s, i);
      if !Close(s, i - 2) {
        forall l, h | Chained(s, l, h) && h <= q.runLo
          ensures h - l < q.bestHi - q.bestLo || (h - l == q.bestHi - q.bestLo && q.bestLo <= l)
        {
          SegmentsDoNotCross(s, p.runLo, l, h);
        }
      }
    }
  }

  lemma SegmentsDoNotCross(s: seq<int>, cut: nat, l: int, h: int)
    requires Chained(s, l, h)
    requires 0 < cut < |s| ==> !Close(s, cut - 1)
    ensures h <= cut || cut <= l || cut >= |s| || cut == 0
  {
  }

  /** The segment the scan ends on: the open run replaces the best one only when strictly longer. */
  function PeakBounds(s: seq<int>): (nat, nat)
    requires s != []
  {
    var p := Scan(s, |s|);
    if |s| - p.runLo > p.bestHi - p.bestLo then (p.runLo, |s|) else (p.bestLo, p.bestHi)
  }

  lemma PeakBoundsArePeak(s: seq<int>)
    requires s != []
    ensures var (lo, hi) := PeakBounds(s); IsPeak(s, lo, hi)
  {
    ScanKeepsInvariant(s, |s|);
    var p := Scan(s, |s|);
    var (lo, hi) := PeakBounds(s);
    forall l, h | Chained(s, l, h)
      ensures h - l < hi - lo || (h - l == hi - lo && lo <= l)
    {
      SegmentsDoNotCross(s, p.runLo, l, h);
    }
  }

  /** The cluster in a sorted sequence of offsets. */
  function PeakOf(s: seq<int>): (r: Option<seq<int>>)
    ensures r.Some? ==> |r.value| >= PEER_QUORUM
  {
    if |s| < PEER_QUORUM then None else
      var (lo, hi) := PeakBounds(s);
      PeakBoundsArePeak(s);
      if hi - lo >= PEER_QUORUM then Some(s[lo..hi]) else None
  }

  ghost predicate NoQuorum(s: seq<int>) {
    forall l, h :: Chained(s, l, h) ==> h - l < PEER_QUORUM
  }

  /** A cluster is the first longest chained segment; there is none exactly when all segments are below quorum. */
  lemma PeakCharacterised(s: seq<int>)
    ensures PeakOf(s).None? <==> NoQuorum(s)
    ensures PeakOf(s).Some? ==>
      exists lo, hi :: IsPeak(s, lo, hi) && PeakOf(s).value == s[lo..hi] && hi - lo >= PEER_QUORUM
  {
    if |s| >= PEER_QUORUM {
      PeakBoundsArePeak(s);
      var (lo, hi) := PeakBounds(s);
      assert Chained(s, lo, hi);
    }
  }

  lemma PeakIsSorted(s: seq<int>)
    requires Sorted(s)
    ensures PeakOf(s).Some? ==> Sorted(PeakOf(s).value)
  {
    if |s| >= PEER_QUORUM { PeakBoundsArePeak(s); }
  }

  /** The consensus cluster of a multiset of fresh offsets. */
  ghost function Peak(m: multiset<int>): Option<seq<int>> { PeakOf(Arrange(m)) }

  /** The loop of `peak_cluster` over sorted offsets. */
  method LongestRun(s: seq<int>) returns (best: seq<int>)
    requires s != []
    ensures var (lo, hi) := PeakBounds(s); 0 <= lo <= hi <= |s| && best == s[lo..hi]
  {
    ScanStart(s);
    hide PeakBounds, Scan;
    best := [];
    var run := [s[0]];
    for i := 1 to |s|
      invariant ScanShape(i, Scan(s, i))
      invariant best == s[Scan(s, i).bestLo..Scan(s, i).bestHi]
      invariant run == s[Scan(s, i).runLo..i]
    {
      ScanNext(s, i);
      if s[i] - s[i - 1] <= CLUSTER_TOLERANCE_MS {
        run := run + [s[i]];
      } else {
        if |run| > |best| {
          best := run;
        }
        run := [s[i]];
      }
    }
    if |run| > |best| {
      best := run;
    }
    BoundsFromScan(s);
  }

  lemma ScanStart(s: seq<int>)
    requires s != []
    ensures Scan(s, 1) == Progress(0, 0, 0)
  {
  }

  lemma ScanNext(s: seq<int>, i: nat)
    requires 1 <= i < |s|
    ensures var p := Scan(s, i);
      Scan(s, i + 1) == if Close(s, i - 1) then p
                        else if i - p.runLo > p.bestHi - p.bestLo then Progress(p.runLo, i, i)
                        else p.(runLo := i)
  {
  }

  lemma BoundsFromScan(s: seq<int>)
    requires s != []
    ensures var p := Scan(s, |s|);
      PeakBounds(s) == if |s| - p.runLo > p.bestHi - p.bestLo then (p.runLo, |s|) else (p.bestLo, p.bestHi)
  {
  }

  /** `peak_cluster`, over offsets in whatever order the peer map yields them. */
  method PeakCluster(offsets: seq<int>) returns (r: Option<seq<int>>)
    ensures r == Peak(multiset(offsets))
  {
    hide Arrange, PeakBounds, Sorted;
    if |offsets| < PEER_QUORUM {
      return None;
    }
    var s := SortUnstable(offsets);
    var best := LongestRun(s);
    r := if |best| >= PEER_QUORUM then Some(best) else None;
  }

  // ---------------------------------------------------------------- the majority argument

  /** The middle element of a nonempty cluster. */
  function Median(c: seq<int>): int
    requires c != []
  {
    c[|c| / 2]
  }

  ghost function Consensus(m: multiset<int>): Option<int> {
    match Peak(m)
    case None => None
    case Some(c) => Some(Median(c))
  }

  // ---------------------------------------------------------------- the middle of a cluster

  ghost function Above(c: seq<int>, x: int): set<int> { set i | 0 <= i < |c| && c[i] > x }

  ghost function Below(c: seq<int>, x: int): set<int> { set i | 0 <= i < |c| && c[i] < x }

  /** A member with fewer than half of the cluster above it and at most half below it. */
  ghost predicate IsMiddle(c: seq<int>, x: int) {
    x in c && 2 * |Above(c, x)| < |c| && 2 * |Below(c, x)| <= |c|
  }

  lemma {:induction false} RangeHolds(part: set<int>, lo: int, hi: int)
    requires lo <= hi
    ensures (forall i :: i in part ==> lo <= i < hi) ==> |part| <= hi - lo
    ensures (forall i :: lo <= i < hi ==> i in part) ==> |part| >= hi - lo
  {
    var range := Range(lo, hi);
    if forall i :: i in part ==> lo <= i < hi { assert range == part + (range - part); }
    if forall i :: lo <= i < hi ==> i in part { assert part == range + (part - range); }
  }

  /** The median is that member, and the only one: of two middle elements the upper. */
  lemma {:induction false} MedianIff(c: seq<int>, x: int)
    requires c != [] && Sorted(c)
    ensures x == Median(c) <==> IsMiddle(c, x)
  {
    var n, m := |c|, |c| / 2;
    if x == Median(c) {
      RangeHolds(Above(c, x), m + 1, n);
      RangeHolds(Below(c, x), 0, m);
    } else if x > Median(c) {
      RangeHolds(Below(c, x), 0, m + 1);
    } else {
      RangeHolds(Above(c, x), m, n);
    }
  }

  lemma PeakIsUnique(s: seq<int>, lo: int, hi: int, l: int, h: int)
    requires IsPeak(s, lo, hi) && IsPeak(s, l, h)
    ensures lo == l && hi == h
  {
  }

  ghost predicate IsMiddleOfPeak(s: seq<int>, lo: int, hi: int, x: int) {
    IsPeak(s, lo, hi) && hi - lo >= 3 && 0 <= lo <= hi <= |s| && IsMiddle(s[lo..hi], x)
  }

  lemma {:induction false} PeakMiddleIff(s: seq<int>, x: int)
    requires Sorted(s)
    ensures (PeakOf(s).Some? && x == Median(PeakOf(s).value)) <==> exists lo, hi :: IsMiddleOfPeak(s, lo, hi, x)
  {
    PeakCharacterised(s);
    PeakIsSorted(s);
    hide PeakOf, IsMiddle, Median, NoQuorum;
    if PeakOf(s).Some? {
      var c := PeakOf(s).value;
      var lo, hi :| IsPeak(s, lo, hi) && c == s[lo..hi] && hi - lo >= PEER_QUORUM;
      MedianIff(c, x);
      assert x == Median(c) ==> IsMiddleOfPeak(s, lo, hi, x);
      forall l, h | IsMiddleOfPeak(s, l, h, x) ensures x == Median(c) {
        PeakIsUnique(s, lo, hi, l, h);
      }
    } else {
      forall l, h ensures !IsMiddleOfPeak(s, l, h, x) {
        SmallPeaks(s, l, h);
      }
    }
  }

  /** `x` is the middle of the first longest segment of the sorted offsets. */
  ghost predicate IsConsensus(s: seq<int>, x: int) { exists lo, hi :: IsMiddleOfPeak(s, lo, hi, x) }

  /** The consensus by counting alone, whatever sorted arrangement of the offsets is looked at. */
  lemma {:induction false} ConsensusIff(m: multiset<int>, s: seq<int>, x: int)
    requires Sorted(s) && multiset(s) == m
    ensures Consensus(m) == Some(x) <==> IsConsensus(s, x)
  {
    ConsensusOf(m, s);
    PeakMiddleIff(s, x);
    hide *;
  }

  lemma ConsensusOf(m: multiset<int>, s: seq<int>)
    requires Sorted(s) && multiset(s) == m
    ensures Consensus(m) == if PeakOf(s).Some? then Some(Median(PeakOf(s).value)) else None
  {
    SortedIsUnique(Arrange(m), s);
  }

  lemma SmallPeaks(s: seq<int>, l: int, h: int)
    requires NoQuorum(s)
    ensures IsPeak(s, l, h) ==> h - l < PEER_QUORUM
  {
  }

  /** The consensus is one of the samples, never a value between them. */
  lemma ConsensusIsASample(m: multiset<int>)
    ensures Consensus(m).Some? ==> Consensus(m).value in m
  {
    MedianIsMember(Arrange(m));
    assert forall x :: x in Arrange(m) ==> x in multiset(Arrange(m));
  }

  lemma MedianIsMember(s: seq<int>)
    ensures PeakOf(s).Some? ==> Median(PeakOf(s).value) in s
  {
    if PeakOf(s).Some? {
      var (lo, hi) := PeakBounds(s);
      PeakBoundsArePeak(s);
      assert PeakOf(s).value[(hi - lo) / 2] == s[lo + (hi - lo) / 2];
    }
  }

  lemma SubMultisetSize(a: multiset<int>, b: multiset<int>)
    requires a <= b
    ensures |a| <= |b|
  {
    assert b == a + (b - a);
  }

  /** Two overlapping chained segments: the longer-than-any one swallows the other. */
  lemma PeakContains(s: seq<int>, lo: int, hi: int, p: int, q: int)
    requires IsPeak(s, lo, hi) && Chained(s, p, q)
    requires lo < q && p < hi
    ensures lo <= p && q <= hi
  {
    var l, h := Min(lo, p), Max(hi, q);
    assert Chained(s, l, h) by {
      forall i | l <= i < h - 1 ensures Close(s, i) {
        assert lo <= i < hi - 1 || p <= i < q - 1;
      }
    }
  }

  /** A sub-multiset with values in `[a, b]` fits in the slice of the arrangement between those bounds. */
  lemma FitsInSlice(s: seq<int>, inside: multiset<int>, a: int, b: int)
    requires Sorted(s) && inside <= multiset(s) && a <= b
    requires forall x :: x in inside ==> a <= x <= b
    ensures Rank(s, a) <= Rank(s, b + 1)
    ensures |inside| <= Rank(s, b + 1) - Rank(s, a)
  {
    var p, q := Rank(s, a), Rank(s, b + 1);
    assert q < |s| ==> s[q] > a;
    hide Rank, Sorted;
    forall x | x in inside ensures inside[x] <= multiset(s[p..q])[x] {
      CountInSlice(s, p, q, x);
    }
    SubMultisetSize(inside, multiset(s[p..q]));
    assert |multiset(s[p..q])| == q - p;
  }

  /** What occurs only between `p` and `q` occurs there as often as everywhere. */
  lemma CountInSlice(s: seq<int>, p: nat, q: nat, x: int)
    requires p <= q <= |s|
    requires (forall i :: 0 <= i < p ==> s[i] != x) && forall i :: q <= i < |s| ==> s[i] != x
    ensures multiset(s[p..q])[x] == multiset(s)[x]
  {
    var front, mid, back := s[..p], s[p..q], s[q..];
    assert s == (front + mid) + back;
    assert multiset(s) == multiset(front) + multiset(mid) + multiset(back);
    assert x !in front && x !in back;
  }

  /** The argument on a sorted sequence: the slice between `a` and `b` holds more than half of it. */
  lemma MajoritySlice(s: seq<int>, a: int, b: int)
    requires Sorted(s) && a <= b <= a + CLUSTER_TOLERANCE_MS
    requires PEER_QUORUM <= Rank(s, b + 1) - Rank(s, a)
    requires 2 * (Rank(s, b + 1) - Rank(s, a)) > |s|
    ensures PeakOf(s).Some? && a <= Median(PeakOf(s).value) <= b
  {
    hide PeakBounds, Rank;
    var p, q := Rank(s, a), Rank(s, b + 1);
    assert Chained(s, p, q);
    PeakBoundsArePeak(s);
    var (lo, hi) := PeakBounds(s);
    PeakContains(s, lo, hi, p, q);
    MiddleOfMajority(lo, hi, p, q, |s|);
    assert s[lo..hi][(hi - lo) / 2] == s[lo + (hi - lo) / 2];
  }

  /**
   * Whatever the remaining offsets are, a strict majority (of at least three) inside an
   * interval no wider than the tolerance forces the consensus into that interval.
   */
  lemma MajorityInterval(m: multiset<int>, inside: multiset<int>, a: int, b: int)
    requires inside <= m
    requires forall x :: x in inside ==> a <= x <= b
    requires b - a <= CLUSTER_TOLERANCE_MS
    requires |inside| >= PEER_QUORUM && 2 * |inside| > |m|
    ensures Consensus(m).Some? && a <= Consensus(m).value <= b
  {
    HasElement(inside);
    FitsInSlice(Arrange(m), inside, a, b);
    MajoritySlice(Arrange(m), a, b);
  }

  /** A slice longer than half of everything covers the middle of any slice around it. */
  lemma MiddleOfMajority(lo: int, hi: int, p: int, q: int, n: int)
    requires 0 <= lo <= p <= q <= hi <= n && 2 * (q - p) > n
    ensures p <= lo + (hi - lo) / 2 < q
  {
  }
}
