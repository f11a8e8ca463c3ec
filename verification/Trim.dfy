/** Dropping samples that cannot matter to a window does not change its output. */
module Trim {
  import opened TimeSeries

  lemma {:induction false} FirstFromIs(raw: seq<RawPoint>, ts: int, n: nat)
    requires n <= |raw| && (n < |raw| ==> raw[n].asof >= ts)
    requires forall k :: 0 <= k < n ==> raw[k].asof < ts
    ensures FirstFrom(raw, ts) == n
  {
  }

  // ----- Right: keep the first m samples, the last of which lies past the window -----

  lemma {:induction false} PrefixSums(w: Window, raw: seq<RawPoint>, m: nat, n: nat)
    requires m <= |raw| && n <= Segments(raw[..m])
    ensures n <= Segments(raw)
    ensures AmountUpTo(w, raw[..m], n) == AmountUpTo(w, raw, n) && CoverUpTo(w, raw[..m], n) == CoverUpTo(w, raw, n)
  {
    if n == 0 {
    } else {
      PrefixSums(w, raw, m, n - 1);
    }
  }

  lemma {:induction false} PrefixMarks(w: Window, raw: seq<RawPoint>, m: nat, n: nat)
    requires n <= m <= |raw|
    requires 0 < m < |raw| ==> raw[m-1].asof > w.te
    ensures MarksUpTo(w, raw[..m], n) == MarksUpTo(w, raw, n)
  {
    if n == 0 {
    } else {
      PrefixMarks(w, raw, m, n - 1);
      assert MarksAt(w, raw[..m], n - 1) == MarksAt(w, raw, n - 1);
    }
  }

  lemma RightTrim(w: Window, raw: seq<RawPoint>, m: nat)
    requires Sorted(raw) && w.ts < w.te && m <= |raw|
    requires m < |raw| ==> 0 < m && raw[m-1].asof > w.te
    ensures Alike(w, raw[..m], raw)
  {
    if m == |raw| {
      assert raw[..m] == raw;
    } else {
      assert TotalAmount(w, raw[..m]) == TotalAmount(w, raw) && TotalCover(w, raw[..m]) == TotalCover(w, raw) by {
        PrefixSums(w, raw, m, m - 1);
        NothingAfter(w, raw, m - 1, Segments(raw));
      }
      assert Marks(w, raw[..m]) == Marks(w, raw) by {
        PrefixMarks(w, raw, m, m);
        NoMarksAfter(w, raw, m, |raw|);
      }
      assert FirstWithin(w, raw[..m]) == FirstWithin(w, raw) by {
        assert raw[m-1] == raw[..m][m-1];
        FirstFromIs(raw[..m], w.ts, FirstFrom(raw, w.ts));
      }
    }
  }

  // ----- Left: drop the first d samples, none of which reaches into the window -----

  lemma {:induction false} SuffixSums(w: Window, raw: seq<RawPoint>, d: nat, n: nat)
    requires d < |raw| && n <= Segments(raw[d..])
    ensures AmountUpTo(w, raw[d..], n) == AmountUpTo(w, raw, d + n) - AmountUpTo(w, raw, d)
    ensures CoverUpTo(w, raw[d..], n) == CoverUpTo(w, raw, d + n) - CoverUpTo(w, raw, d)
  {
    if n == 0 {
    } else {
      SuffixSums(w, raw, d, n - 1);
    }
  }

  lemma {:induction false} SuffixMarks(w: Window, raw: seq<RawPoint>, d: nat, n: nat)
    requires d + n <= |raw|
    ensures MarksUpTo(w, raw, d + n) == MarksUpTo(w, raw, d) + MarksUpTo(w, raw[d..], n)
  {
    if n == 0 {
    } else {
      SuffixMarks(w, raw, d, n - 1);
      assert MarksAt(w, raw[d..], n - 1) == MarksAt(w, raw, d + n - 1);
    }
  }

  /** The first d segments end before or at the start of the window. */
  lemma {:induction false} NothingUntil(w: Window, raw: seq<RawPoint>, d: nat)
    requires d < |raw| && Sorted(raw)
    requires d > 0 ==> raw[d].asof <= w.ts
    requires w.kind.Rate? || forall k :: 0 <= k < d ==> raw[k].asof < w.ts
    ensures AmountUpTo(w, raw, d) == 0.0 && CoverUpTo(w, raw, d) == 0.0
    ensures MarksUpTo(w, raw, d) == {}
  {
    if d == 0 {
    } else {
      NothingUntil(w, raw, d - 1);
      assert !Overlaps(w, raw[d-1], raw[d]);
      assert MarksAt(w, raw, d - 1) == {};
    }
  }

  lemma LeftTrimMarks(w: Window, raw: seq<RawPoint>, d: nat)
    requires Sorted(raw) && d < |raw|
    requires d > 0 ==> raw[d].asof <= w.ts
    requires w.kind.Rate? || forall k :: 0 <= k < d ==> raw[k].asof < w.ts
    ensures Marks(w, raw[d..]) == Marks(w, raw)
  {
    NothingUntil(w, raw, d);
    SuffixMarks(w, raw, d, |raw| - d);
    assert {} + Marks(w, raw[d..]) == Marks(w, raw[d..]);
  }

  lemma LeftTrim(w: Window, raw: seq<RawPoint>, d: nat)
    requires Sorted(raw) && d < |raw|
    requires d > 0 ==> raw[d].asof <= w.ts
    requires w.kind.Rate? || forall k :: 0 <= k < d ==> raw[k].asof < w.ts
    ensures Alike(w, raw[d..], raw)
  {
    LeftTrimSums(w, raw, d);
    LeftTrimMarks(w, raw, d);
    LeftTrimFirst(w, raw, d);
    hide TotalAmount, TotalCover, Marks, FirstWithin, Sorted;
  }

  lemma LeftTrimSums(w: Window, raw: seq<RawPoint>, d: nat)
    requires Sorted(raw) && d < |raw|
    requires d > 0 ==> raw[d].asof <= w.ts
    requires w.kind.Rate? || forall k :: 0 <= k < d ==> raw[k].asof < w.ts
    ensures TotalAmount(w, raw[d..]) == TotalAmount(w, raw) && TotalCover(w, raw[d..]) == TotalCover(w, raw)
  {
    hide AmountUpTo, CoverUpTo, MarksUpTo;
    NothingUntil(w, raw, d);
    SuffixSums(w, raw, d, Segments(raw[d..]));
  }

  lemma LeftTrimFirst(w: Window, raw: seq<RawPoint>, d: nat)
    requires d < |raw| && (w.kind.Rate? || forall k :: 0 <= k < d ==> raw[k].asof < w.ts)
    ensures FirstWithin(w, raw[d..]) == FirstWithin(w, raw)
  {
    hide FirstFrom;
    if w.kind.Absolute? {
      SuffixFirst(raw, d, w.ts);
    }
  }

  lemma {:induction false} SuffixFirst(raw: seq<RawPoint>, d: nat, ts: int)
    requires d <= |raw| && forall k :: 0 <= k < d ==> raw[k].asof < ts
    ensures FirstFrom(raw, ts) == d + FirstFrom(raw[d..], ts)
  {
    var j := FirstFrom(raw[d..], ts);
    assert forall k :: d <= k < |raw| ==> raw[k] == raw[d..][k-d];
    FirstFromIs(raw, ts, d + j);
  }

  // ----- The resampler's own trims -----

  /** How many leading samples are dropped: all but the last one not past start, if any is past it. */
  function Dropped(raw: seq<RawPoint>, start: int): (d: nat)
    ensures d <= |raw| && (d > 0 ==> d + 1 < |raw| && raw[d+1].asof > start)
    ensures forall k :: 1 <= k <= d ==> raw[k].asof <= start
    ensures (exists k :: 1 <= k < |raw| && raw[k].asof > start) ==> d + 1 < |raw| && raw[d+1].asof > start
  {
    if raw == [] then 0
    else
      var d := FirstFrom(raw[1..], start + 1);
      assert forall k :: 1 <= k <= d ==> raw[k] == raw[1..][k-1];
      if d + 1 < |raw| then d else 0
  }

  /** No dropped gauge sample sits at start itself; counters never look at single samples. */
  predicate TrimSafe(raw: seq<RawPoint>, kind: Kind, start: int) {
    kind.Rate? || forall k :: 0 <= k < Dropped(raw, start) ==> raw[k].asof < start
  }

  lemma StrictTimesAreTrimSafe(raw: seq<RawPoint>, kind: Kind, start: int)
    requires forall i, j :: 0 <= i < j < |raw| ==> raw[i].asof < raw[j].asof
    ensures TrimSafe(raw, kind, start)
  {
    var d := Dropped(raw, start);
    if d > 0 {
      assert raw[d].asof <= start;
    }
  }

  lemma TrimmedPrefixIsOutside(raw: seq<RawPoint>, kind: Kind, start: int, ts: int)
    requires Sorted(raw) && if start == ts then TrimSafe(raw, kind, start) else start < ts
    ensures var d := Dropped(raw, start);
            && (d > 0 ==> raw[d].asof <= ts)
            && (kind.Rate? || forall k :: 0 <= k < d ==> raw[k].asof < ts)
  {
  }

  /** The right trim at any end beyond the window is invisible, duplicates or not. */
  lemma RightTrimInvisible(w: Window, raw: seq<RawPoint>, kept: seq<RawPoint>, limit: int)
    requires Sorted(raw) && w.ts < w.te < limit
    requires kept <= raw && (kept != raw ==> kept != [] && kept[|kept|-1].asof >= limit)
    ensures Alike(w, kept, raw)
  {
    assert kept == raw[..|kept|];
    RightTrim(w, raw, |kept|);
  }

  /** The left trim is invisible to every window that opens after start, and to one that opens at start unless a
      dropped gauge sample sits exactly there. */
  lemma LeftTrimInvisible(w: Window, raw: seq<RawPoint>, start: int)
    requires Sorted(raw) && if start == w.ts then TrimSafe(raw, w.kind, start) else start < w.ts
    ensures Alike(w, raw[Dropped(raw, start)..], raw)
  {
    var d := Dropped(raw, start);
    if d == 0 {
      assert raw[0..] == raw;
    } else {
      TrimmedPrefixIsOutside(raw, w.kind, start, w.ts);
      LeftTrim(w, raw, d);
    }
  }

  // ----- What the left trim can lose -----

  ghost predicate SameTimes(raw: seq<RawPoint>, other: seq<RawPoint>) {
    |raw| == |other| && forall k :: 0 <= k < |raw| ==> raw[k].asof == other[k].asof
  }

  /** The first d samples at height 1, the others at 0. */
  function Peak(raw: seq<RawPoint>, d: nat): (r: seq<RawPoint>)
    ensures SameTimes(raw, r)
  {
    seq(|raw|, k requires 0 <= k < |raw| => RawPoint(raw[k].asof, if k < d then 1.0 else 0.0))
  }

  lemma SameTimesDropTheSame(raw: seq<RawPoint>, other: seq<RawPoint>, start: int)
    requires SameTimes(raw, other)
    ensures Dropped(raw, start) == Dropped(other, start)
  {
    if raw != [] {
      FirstFromIs(other[1..], start + 1, FirstFrom(raw[1..], start + 1));
    }
  }

  lemma FlatLine(p: RawPoint, q: RawPoint, t: real)
    requires p.asof < q.asof && p.value == q.value == 0.0
    ensures Slope(p, q) == 0.0 && LineAt(p, q, t) == 0.0
  {
    assert Slope(p, q) * (t - p.asof as real) == 0.0;
  }

  lemma {:induction false} FlatMarks(w: Window, raw: seq<RawPoint>, n: nat)
    requires n <= |raw| && forall k :: 0 <= k < |raw| ==> raw[k].value == 0.0
    ensures MarksUpTo(w, raw, n) <= {0.0}
  {
    if n == 0 {
    } else {
      FlatMarks(w, raw, n - 1);
      if n < |raw| && Overlaps(w, raw[n-1], raw[n]) {
        FlatLine(raw[n-1], raw[n], w.ts as real);
        FlatLine(raw[n-1], raw[n], w.te as real);
      }
    }
  }

  lemma {:induction false} SampleIsMark(w: Window, raw: seq<RawPoint>, k: nat, n: nat)
    requires k < n <= |raw| && w.kind.Absolute? && w.ts <= raw[k].asof <= w.te
    ensures raw[k].value in MarksUpTo(w, raw, n)
  {
    if k == n - 1 {
    } else {
      SampleIsMark(w, raw, k, n - 1);
    }
  }

  lemma FlatPoint(w: Window, flat: seq<RawPoint>) returns (q: IntPoint)
    requires flat != [] && forall k :: 0 <= k < |flat| ==> flat[k].value == 0.0
    requires w.kind.Absolute? && 0 <= w.ts == flat[0].asof < w.te
    ensures IsStep(w, flat, q) && q.max == Num(0.0)
  {
    FlatMarks(w, flat, |flat|);
    SampleIsMark(w, flat, 0, |flat|);
    assert Marks(w, flat) == {0.0};
    var zero, cover := Num(0.0), TotalCover(w, flat);
    q := IntPoint(w.ts, if cover > 0.0 then Num(TotalAmount(w, flat) / cover) else zero, zero, zero);
  }

  lemma PeakShows(w: Window, peak: seq<RawPoint>, k: nat, q: IntPoint)
    requires k < |peak| && w.kind.Absolute? && w.ts == peak[k].asof < w.te
    requires forall l :: 0 <= l <= k ==> peak[l].value == 1.0
    requires IsStep(w, peak, q)
    ensures q.max != Num(0.0)
  {
    if TotalCover(w, peak) > 0.0 {
      SampleIsMark(w, peak, k, |peak|);
    }
  }

  lemma SortedPair(raw: seq<RawPoint>, i: nat, j: nat)
    requires Sorted(raw) && i < j < |raw|
    ensures raw[i].asof <= raw[j].asof
  {
  }

  /** A window opening at start sees the difference if a gauge sample at start was dropped. */
  lemma DroppedSampleIsVisible(w: Window, raw: seq<RawPoint>) returns (q: IntPoint)
    requires Sorted(raw) && 0 <= w.ts < w.te && !TrimSafe(raw, w.kind, w.ts)
    ensures var d := Dropped(raw, w.ts);
            IsStep(w, Peak(raw, d)[d..], q) && !IsStep(w, Peak(raw, d), q)
  {
    hide IsStep, Sorted;
    var d := Dropped(raw, w.ts);
    var peak := Peak(raw, d);
    var k :| 0 <= k < d && raw[k].asof >= w.ts;
    assert raw[k].asof <= raw[d].asof <= w.ts by { assert Sorted(raw); SortedPair(raw, k, d); }
    q := FlatPoint(w, peak[d..]);
    if IsStep(w, peak, q) {
      PeakShows(w, peak, k, q);
    }
  }

  /** Exactly when no dropped gauge sample sits at start do trimmed and untrimmed arrays, whatever their
      values, give the first step the same output. */
  lemma TrimmingIsInvisibleIff(w: Window, raw: seq<RawPoint>)
    requires Sorted(raw) && 0 <= w.ts < w.te
    ensures TrimSafe(raw, w.kind, w.ts) <==>
            forall other, p :: SameTimes(raw, other) ==>
              (IsStep(w, other[Dropped(other, w.ts)..], p) <==> IsStep(w, other, p))
  {
    if TrimSafe(raw, w.kind, w.ts) {
      forall other, p | SameTimes(raw, other)
        ensures IsStep(w, other[Dropped(other, w.ts)..], p) <==> IsStep(w, other, p)
      {
        SameTimesDropTheSame(raw, other, w.ts);
        LeftTrimInvisible(w, other, w.ts);
      }
    } else {
      var q := DroppedSampleIsVisible(w, raw);
      SameTimesDropTheSame(raw, Peak(raw, Dropped(raw, w.ts)), w.ts);
    }
  }
}
