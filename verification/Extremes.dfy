/** What the minimum, maximum and average of a step say about the curve. */
module Extremes {
  import opened TimeSeries
  import opened Curve
  import opened Conservation

  // ----- Gauges: the covered curve -----

  /** Height v is reached within the window: by a sample in [ts, te], or by the covered curve. */
  ghost predicate Reached(w: Window, raw: seq<RawPoint>, v: real) {
    || (exists k :: SampleReaches(w, raw, k, v))
    || (exists k, t :: CurveReaches(w, raw, k, t, v))
  }

  ghost predicate SampleReaches(w: Window, raw: seq<RawPoint>, k: int, v: real) {
    0 <= k < |raw| && w.ts <= raw[k].asof <= w.te && v == raw[k].value
  }

  ghost predicate CurveReaches(w: Window, raw: seq<RawPoint>, k: int, t: real, v: real) {
    && 0 <= k < |raw| - 1 && Overlaps(w, raw[k], raw[k+1])
    && Later(raw[k].asof, w.ts) as real <= t <= Earlier(raw[k+1].asof, w.te) as real
    && v == LineAt(raw[k], raw[k+1], t)
  }

  lemma {:induction false} MarkOf(w: Window, raw: seq<RawPoint>, v: real, n: nat) returns (k: nat)
    requires n <= |raw| && v in MarksUpTo(w, raw, n)
    ensures k < n && v in MarksAt(w, raw, k)
  {
    if v in MarksAt(w, raw, n - 1) {
      k := n - 1;
    } else {
      k := MarkOf(w, raw, v, n - 1);
    }
  }

  lemma {:induction false} MarksContain(w: Window, raw: seq<RawPoint>, k: nat, n: nat)
    requires k < n <= |raw|
    ensures MarksAt(w, raw, k) <= MarksUpTo(w, raw, n)
  {
    if k == n - 1 {
    } else {
      MarksContain(w, raw, k, n - 1);
    }
  }

  lemma MarkIsReached(w: Window, raw: seq<RawPoint>, v: real)
    requires w.kind.Absolute? && v in Marks(w, raw)
    ensures Reached(w, raw, v)
  {
    var k := MarkOf(w, raw, v, |raw|);
    if w.ts <= raw[k].asof <= w.te && v == raw[k].value {
      assert SampleReaches(w, raw, k, v);
    } else if raw[k].asof < w.ts && v == LineAt(raw[k], raw[k+1], w.ts as real) {
      assert CurveReaches(w, raw, k, w.ts as real, v);
    } else {
      assert CurveReaches(w, raw, k, w.te as real, v);
    }
  }

  /** Both ends of a covered stretch are marks. */
  lemma EndsAreMarks(w: Window, raw: seq<RawPoint>, k: nat)
    requires w.kind.Absolute? && k < |raw| - 1 && Overlaps(w, raw[k], raw[k+1])
    ensures LineAt(raw[k], raw[k+1], Later(raw[k].asof, w.ts) as real) in Marks(w, raw)
    ensures LineAt(raw[k], raw[k+1], Earlier(raw[k+1].asof, w.te) as real) in Marks(w, raw)
  {
    SlopeTimesLength(raw[k], raw[k+1]);
    MarksContain(w, raw, k, |raw|);
    MarksContain(w, raw, k + 1, |raw|);
    if w.ts <= raw[k].asof {
      assert raw[k].value in MarksAt(w, raw, k);
    } else {
      assert LineAt(raw[k], raw[k+1], w.ts as real) in CutsOf(w, raw[k], raw[k+1]);
    }
    if raw[k+1].asof <= w.te {
      assert raw[k+1].value in MarksAt(w, raw, k + 1);
    } else {
      assert LineAt(raw[k], raw[k+1], w.te as real) in CutsOf(w, raw[k], raw[k+1]);
    }
  }

  /** Whatever is reached lies between two marks. */
  lemma ReachedIsBetweenMarks(w: Window, raw: seq<RawPoint>, v: real, lo: Float, hi: Float)
    requires w.kind.Absolute? && Reached(w, raw, v) && IsMin(lo, Marks(w, raw)) && IsMax(hi, Marks(w, raw))
    ensures lo.Num? && hi.Num? && lo.v <= v <= hi.v
  {
    if k :| SampleReaches(w, raw, k, v) {
      MarksContain(w, raw, k, |raw|);
      assert v in MarksAt(w, raw, k);
    } else {
      var k, t :| CurveReaches(w, raw, k, t, v);
      EndsAreMarks(w, raw, k);
      RiseOverStretch(raw[k], raw[k+1], Later(raw[k].asof, w.ts) as real, t);
      RiseOverStretch(raw[k], raw[k+1], t, Earlier(raw[k+1].asof, w.te) as real);
    }
  }

  /** Minimum and maximum are the exact extremes of what is reached. */
  lemma ExtremesAreExact(w: Window, raw: seq<RawPoint>, p: IntPoint)
    requires w.kind.Absolute? && IsStep(w, raw, p) && TotalCover(w, raw) > 0.0
    ensures p.min.Num? && Reached(w, raw, p.min.v)
    ensures p.max.Num? && Reached(w, raw, p.max.v)
    ensures forall v :: Reached(w, raw, v) ==> p.min.v <= v <= p.max.v
  {
    var k := CoveredSegment(w, raw, Segments(raw));
    EndsAreMarks(w, raw, k);
    MarkIsReached(w, raw, p.min.v);
    MarkIsReached(w, raw, p.max.v);
    forall v | Reached(w, raw, v) ensures p.min.v <= v <= p.max.v {
      ReachedIsBetweenMarks(w, raw, v, p.min, p.max);
    }
  }

  lemma {:induction false} CoveredSegment(w: Window, raw: seq<RawPoint>, n: nat) returns (k: nat)
    requires n <= Segments(raw) && CoverUpTo(w, raw, n) > 0.0
    ensures k < n && Overlaps(w, raw[k], raw[k+1]) && Cover(w, raw[k], raw[k+1]) > 0.0
  {
    if Cover(w, raw[n-1], raw[n]) > 0.0 {
      k := n - 1;
    } else {
      k := CoveredSegment(w, raw, n - 1);
    }
  }

  // ----- Averages lie between the extremes -----

  lemma GaugeShare(w: Window, p: RawPoint, q: RawPoint)
    requires w.kind.Absolute? && Overlaps(w, p, q)
    ensures var (a, b) := (Later(p.asof, w.ts) as real, Earlier(q.asof, w.te) as real);
            a <= b && Amount(w, p, q) == Primitive(p, q, b) - Primitive(p, q, a) && Cover(w, p, q) == b - a
  {
    hide Primitive;
  }

  lemma GaugeMeanWithin(w: Window, raw: seq<RawPoint>, k: nat, lo: real, hi: real)
    requires w.kind.Absolute? && k < |raw| - 1 && Overlaps(w, raw[k], raw[k+1])
    requires forall v :: v in Marks(w, raw) ==> lo <= v <= hi
    ensures lo * Cover(w, raw[k], raw[k+1]) <= Amount(w, raw[k], raw[k+1]) <= hi * Cover(w, raw[k], raw[k+1])
  {
    var p, q := raw[k], raw[k+1];
    var a, b := Later(p.asof, w.ts) as real, Earlier(q.asof, w.te) as real;
    hide Amount, Cover, Primitive, LineAt, Marks, Slope;
    GaugeShare(w, p, q);
    EndsAreMarks(w, raw, k);
    MeanWithinEnds(p, q, a, b, lo, hi);
  }

  lemma CounterShare(w: Window, p: RawPoint, q: RawPoint)
    requires w.kind.Rate? && Overlaps(w, p, q) && !Falling(p, q)
    ensures Amount(w, p, q) == Slope(p, q) * Cover(w, p, q) && Cover(w, p, q) >= 0.0
  {
    hide Slope;
  }

  lemma CounterMeanWithin(w: Window, raw: seq<RawPoint>, k: nat, lo: real, hi: real)
    requires w.kind.Rate? && k < |raw| - 1 && Overlaps(w, raw[k], raw[k+1]) && !Falling(raw[k], raw[k+1])
    requires forall v :: v in Marks(w, raw) ==> lo <= v <= hi
    ensures lo * Cover(w, raw[k], raw[k+1]) <= Amount(w, raw[k], raw[k+1]) <= hi * Cover(w, raw[k], raw[k+1])
  {
    hide Amount, Cover, Slope;
    MarksContain(w, raw, k, |raw|);
    assert Slope(raw[k], raw[k+1]) in MarksAt(w, raw, k);
    assert Slope(raw[k], raw[k+1]) in Marks(w, raw);
    CounterShare(w, raw[k], raw[k+1]);
    ScaleBounds(lo, Slope(raw[k], raw[k+1]), hi, Cover(w, raw[k], raw[k+1]));
  }

  /** The covered length of a segment over which its growth is known: all of it, unless it is a reset. */
  function KnownCover(w: Window, p: RawPoint, q: RawPoint): real {
    if w.kind.Rate? && Falling(p, q) then 0.0 else Cover(w, p, q)
  }

  function KnownCoverUpTo(w: Window, raw: seq<RawPoint>, n: nat): real
    requires n <= Segments(raw)
  {
    if n == 0 then 0.0 else KnownCoverUpTo(w, raw, n - 1) + KnownCover(w, raw[n-1], raw[n])
  }

  function TotalKnownCover(w: Window, raw: seq<RawPoint>): real { KnownCoverUpTo(w, raw, Segments(raw)) }

  /** A reset is covered by the window: a falling counter overlaps it without spanning it. */
  predicate ResetAt(w: Window, raw: seq<RawPoint>, k: int) {
    && w.kind.Rate? && 0 <= k < Segments(raw) && Overlaps(w, raw[k], raw[k+1]) && Falling(raw[k], raw[k+1])
    && !Spans(w, raw[k], raw[k+1])
  }

  predicate NoReset(w: Window, raw: seq<RawPoint>) { forall k :: 0 <= k < Segments(raw) ==> !ResetAt(w, raw, k) }

  lemma SegmentKnown(w: Window, raw: seq<RawPoint>, k: nat)
    requires k < Segments(raw)
    ensures 0.0 <= KnownCover(w, raw[k], raw[k+1]) <= Cover(w, raw[k], raw[k+1])
    ensures KnownCover(w, raw[k], raw[k+1]) == Cover(w, raw[k], raw[k+1]) <==> !ResetAt(w, raw, k)
  {
  }

  /** The growth is known over the whole covered length exactly when no reset is covered. */
  lemma {:induction false} KnownCoverIsLess(w: Window, raw: seq<RawPoint>, n: nat)
    requires n <= Segments(raw)
    ensures 0.0 <= KnownCoverUpTo(w, raw, n) <= CoverUpTo(w, raw, n)
    ensures KnownCoverUpTo(w, raw, n) == CoverUpTo(w, raw, n) <==> forall k :: 0 <= k < n ==> !ResetAt(w, raw, k)
  {
    hide KnownCover, Cover, ResetAt;
    if n == 0 {
    } else {
      KnownCoverIsLess(w, raw, n - 1);
      SegmentKnown(w, raw, n - 1);
    }
  }

  lemma {:induction false} TotalKnownIff(w: Window, raw: seq<RawPoint>)
    ensures 0.0 <= TotalKnownCover(w, raw) <= TotalCover(w, raw)
    ensures TotalKnownCover(w, raw) == TotalCover(w, raw) <==> NoReset(w, raw)
  {
    KnownCoverIsLess(w, raw, Segments(raw));
    hide KnownCoverUpTo, CoverUpTo;
  }

  lemma SegmentMeanWithin(w: Window, raw: seq<RawPoint>, k: nat, lo: real, hi: real)
    requires k < |raw| - 1
    requires forall v :: v in Marks(w, raw) ==> lo <= v <= hi
    ensures var c := KnownCover(w, raw[k], raw[k+1]);
            lo * c <= Amount(w, raw[k], raw[k+1]) <= hi * c
  {
    hide Amount, Cover, Marks, KnownCover, Falling;
    KnownShare(w, raw[k], raw[k+1]);
    if !Overlaps(w, raw[k], raw[k+1]) || (w.kind.Rate? && Falling(raw[k], raw[k+1])) {
    } else if w.kind.Absolute? {
      GaugeMeanWithin(w, raw, k, lo, hi);
    } else {
      CounterMeanWithin(w, raw, k, lo, hi);
    }
  }

  lemma KnownShare(w: Window, p: RawPoint, q: RawPoint)
    ensures if !Overlaps(w, p, q) || (w.kind.Rate? && Falling(p, q)) then KnownCover(w, p, q) == Amount(w, p, q) == 0.0
            else KnownCover(w, p, q) == Cover(w, p, q)
  {
  }

  /** Bounds add up. */
  lemma AddBounds(lo: real, hi: real, a: real, c: real, b: real, d: real)
    requires lo * c <= a <= hi * c && lo * d <= b <= hi * d
    ensures lo * (c + d) <= a + b <= hi * (c + d)
  {
  }

  /** The mean over the known part lies between all marks. */
  lemma {:induction false} MeanWithin(w: Window, raw: seq<RawPoint>, n: nat, lo: real, hi: real)
    requires n <= Segments(raw)
    requires forall v :: v in Marks(w, raw) ==> lo <= v <= hi
    ensures lo * KnownCoverUpTo(w, raw, n) <= AmountUpTo(w, raw, n) <= hi * KnownCoverUpTo(w, raw, n)
  {
    hide Amount, KnownCover, Marks;
    if n == 0 {
    } else {
      MeanWithin(w, raw, n - 1, lo, hi);
      var a, c, b, d := AmountUpTo(w, raw, n - 1), KnownCoverUpTo(w, raw, n - 1),
                        Amount(w, raw[n-1], raw[n]), KnownCover(w, raw[n-1], raw[n]);
      SegmentMeanWithin(w, raw, n - 1, lo, hi);
      AddBounds(lo, hi, a, c, b, d);
    }
  }

  lemma QuotientBetween(lo: real, a: real, hi: real, c: real)
    requires c > 0.0
    ensures lo * c <= a <==> lo <= a / c
    ensures a <= hi * c <==> a / c <= hi
  {
    Quotient(a, c);
    ScaleSign(a / c - lo, c);
    ScaleSign(hi - a / c, c);
    ScaleDifferenceOf(a / c, lo, c);
    ScaleDifferenceOf(hi, a / c, c);
  }

  lemma ScaleDifferenceOf(x: real, y: real, c: real)
    ensures (x - y) * c == x * c - y * c
  {
  }

  // ----- When an output is not a number -----

  /** A segment covers part of the window; a counter that falls across all of it covers nothing. */
  ghost predicate SomeCovered(w: Window, raw: seq<RawPoint>) {
    exists k :: 0 <= k < |raw| - 1 && Overlaps(w, raw[k], raw[k+1])
                && !(w.kind.Rate? && Falling(raw[k], raw[k+1]) && Spans(w, raw[k], raw[k+1]))
  }

  /** A segment overlaps the window that is not a reset. */
  ghost predicate SomeKnown(w: Window, raw: seq<RawPoint>) {
    exists k :: 0 <= k < |raw| - 1 && Overlaps(w, raw[k], raw[k+1]) && !(w.kind.Rate? && Falling(raw[k], raw[k+1]))
  }

  /** A gauge sample lies in [ts, te). */
  ghost predicate SomeSample(w: Window, raw: seq<RawPoint>) {
    w.kind.Absolute? && exists k :: 0 <= k < |raw| && w.ts <= raw[k].asof < w.te
  }

  lemma {:induction false} SegmentIsCovered(w: Window, raw: seq<RawPoint>, k: nat, n: nat)
    requires k < n <= Segments(raw)
    ensures Cover(w, raw[k], raw[k+1]) <= CoverUpTo(w, raw, n)
  {
    NoCoverNoAmount(w, raw, n - 1);
    if k == n - 1 {
    } else {
      SegmentIsCovered(w, raw, k, n - 1);
    }
  }

  lemma CoveredIff(w: Window, raw: seq<RawPoint>)
    ensures SomeCovered(w, raw) <==> TotalCover(w, raw) > 0.0
  {
    if TotalCover(w, raw) > 0.0 {
      var k := CoveredSegment(w, raw, Segments(raw));
    }
    if SomeCovered(w, raw) {
      var k :| 0 <= k < |raw| - 1 && Overlaps(w, raw[k], raw[k+1])
               && !(w.kind.Rate? && Falling(raw[k], raw[k+1]) && Spans(w, raw[k], raw[k+1]));
      SegmentIsCovered(w, raw, k, Segments(raw));
    }
  }

  lemma {:induction false} NothingMarked(w: Window, raw: seq<RawPoint>, n: nat)
    requires w.kind.Rate? && n <= |raw| && !SomeKnown(w, raw)
    ensures MarksUpTo(w, raw, n) == {}
  {
    if n == 0 {
    } else {
      NothingMarked(w, raw, n - 1);
      assert MarksAt(w, raw, n - 1) == {};
    }
  }

  /** Something known leaves a mark; with something covered, nothing else does. */
  lemma MarkedIff(w: Window, raw: seq<RawPoint>)
    requires w.kind.Rate? || SomeCovered(w, raw)
    ensures SomeKnown(w, raw) <==> Marks(w, raw) != {}
  {
    if SomeKnown(w, raw) {
      var k :| 0 <= k < |raw| - 1 && Overlaps(w, raw[k], raw[k+1]) && !(w.kind.Rate? && Falling(raw[k], raw[k+1]));
      if w.kind.Absolute? {
        EndsAreMarks(w, raw, k);
      } else {
        MarksContain(w, raw, k, |raw|);
        assert Slope(raw[k], raw[k+1]) in MarksAt(w, raw, k);
      }
    }
    if w.kind.Rate? && !SomeKnown(w, raw) {
      NothingMarked(w, raw, |raw|);
    }
  }

  /** The average is not a number exactly when nothing is covered and no gauge sample lies in [ts, te); minimum and
      maximum exactly when nothing known overlaps and no gauge sample lies there.  So the three agree unless, and
      only unless, resets are all that is covered; then the average is 0 and the extremes are not numbers. */
  lemma NotANumberIff(w: Window, raw: seq<RawPoint>, p: IntPoint)
    requires Sorted(raw) && IsStep(w, raw, p)
    ensures p.avg.NaN? <==> !SomeCovered(w, raw) && !SomeSample(w, raw)
    ensures p.min.NaN? <==> !SomeKnown(w, raw) && !SomeSample(w, raw)
    ensures p.max.NaN? <==> p.min.NaN?
    ensures (p.avg.NaN? <==> p.min.NaN?) <==> (SomeCovered(w, raw) ==> SomeKnown(w, raw))
    ensures SomeCovered(w, raw) && !SomeKnown(w, raw) ==> p.avg == Num(0.0)
  {
    CoveredIff(w, raw);
    assert SomeKnown(w, raw) ==> SomeCovered(w, raw);
    if SomeCovered(w, raw) {
      MarkedIff(w, raw);
      assert w.kind.Absolute? ==> SomeKnown(w, raw);
      if !SomeKnown(w, raw) {
        MeanWithin(w, raw, Segments(raw), 0.0, 0.0);
        assert TotalAmount(w, raw) == 0.0;
        Quotient(0.0, TotalCover(w, raw));
      }
    } else {
      SampleFirst(w, raw);
    }
    hide TotalAmount, TotalCover, Marks, FirstWithin, SomeCovered, SomeKnown, SomeSample;
  }

  lemma SampleFirst(w: Window, raw: seq<RawPoint>)
    requires Sorted(raw)
    ensures FirstWithin(w, raw).Num? <==> SomeSample(w, raw)
  {
  }

  // ----- Averages and extremes -----

  lemma BoundsOfMarks(w: Window, raw: seq<RawPoint>, p: IntPoint)
    requires IsMin(p.min, Marks(w, raw)) && IsMax(p.max, Marks(w, raw)) && Marks(w, raw) != {}
    ensures p.min.Num? && p.max.Num? && forall v :: v in Marks(w, raw) ==> p.min.v <= v <= p.max.v
  {
    hide Marks;
  }

  /** Where resets are all that is covered the average is 0; everywhere else minimum and maximum bound the mean
      over the known part. */
  lemma KnownMeanWithin(w: Window, raw: seq<RawPoint>, p: IntPoint)
    requires IsStep(w, raw, p) && TotalCover(w, raw) > 0.0 && p.min.Num?
    ensures p.max.Num? && p.avg == Num(TotalAmount(w, raw) / TotalCover(w, raw))
    ensures p.min.v * TotalKnownCover(w, raw) <= TotalAmount(w, raw) <= p.max.v * TotalKnownCover(w, raw)
    ensures w.kind.Rate? ==> 0.0 <= p.min.v <= p.max.v
  {
    hide FirstWithin, TotalAmount, TotalCover, Marks;
    BoundsOfMarks(w, raw, p);
    KnownWithin(w, raw, p.min.v, p.max.v);
    if w.kind.Rate? {
      RatesAreNotNegative(w, raw, p.min.v);
    }
  }

  lemma KnownWithin(w: Window, raw: seq<RawPoint>, lo: real, hi: real)
    requires forall v :: v in Marks(w, raw) ==> lo <= v <= hi
    ensures lo * TotalKnownCover(w, raw) <= TotalAmount(w, raw) <= hi * TotalKnownCover(w, raw)
  {
    hide Marks, AmountUpTo, KnownCoverUpTo;
    MeanWithin(w, raw, Segments(raw), lo, hi);
  }

  lemma RatesAreNotNegative(w: Window, raw: seq<RawPoint>, v: real)
    requires w.kind.Rate? && v in Marks(w, raw)
    ensures v >= 0.0
  {
    var k := MarkOf(w, raw, v, |raw|);
    SlopeTimes(raw[k], raw[k+1]);
    hide Slope;
  }

  /** For gauges, and for counters wherever no reset is covered, Min <= Avg <= Max. */
  lemma {:induction false} AverageIsBetweenExtremes(w: Window, raw: seq<RawPoint>, p: IntPoint)
    requires NoReset(w, raw) && IsStep(w, raw, p) && p.avg.Num?
    ensures p.min.Num? && p.max.Num? && p.min.v <= p.avg.v <= p.max.v
  {
    hide TotalAmount, TotalCover, TotalKnownCover, Marks, FirstWithin, NoReset, SomeCovered, SomeKnown, SomeSample,
         IsMin, IsMax;
    if TotalCover(w, raw) > 0.0 {
      CoveredIff(w, raw);
      CoveredIsKnown(w, raw);
      MarkedIff(w, raw);
      assert p.min.Num? by { BoundsOfMarks(w, raw, p); }
      TotalKnownIff(w, raw);
      KnownMeanWithin(w, raw, p);
      QuotientBetween(p.min.v, TotalAmount(w, raw), p.max.v, TotalCover(w, raw));
    }
  }

  lemma CoveredIsKnown(w: Window, raw: seq<RawPoint>)
    requires NoReset(w, raw)
    ensures SomeCovered(w, raw) ==> SomeKnown(w, raw)
  {
    if SomeCovered(w, raw) {
      var k :| 0 <= k < |raw| - 1 && Overlaps(w, raw[k], raw[k+1])
               && !(w.kind.Rate? && Falling(raw[k], raw[k+1]) && Spans(w, raw[k], raw[k+1]));
      assert !ResetAt(w, raw, k);
      hide Overlaps, Spans;
    }
  }

  /** Resets or not, the average is at most the maximum, if there is one. */
  lemma {:induction false} AverageIsAtMostMax(w: Window, raw: seq<RawPoint>, p: IntPoint)
    requires IsStep(w, raw, p) && p.max.Num?
    ensures p.avg.Num? && p.avg.v <= p.max.v
  {
    hide TotalAmount, TotalCover, TotalKnownCover, Marks, FirstWithin, NoReset;
    if TotalCover(w, raw) > 0.0 {
      assert p.min.Num?;
      KnownMeanWithin(w, raw, p);
      TotalKnownIff(w, raw);
      if w.kind.Absolute? {
        assert NoReset(w, raw) by { GaugesHaveNoReset(w, raw); }
      } else {
        ScaleUp(p.max.v, TotalKnownCover(w, raw), TotalCover(w, raw));
      }
      QuotientBetween(p.min.v, TotalAmount(w, raw), p.max.v, TotalCover(w, raw));
    }
  }

  lemma GaugesHaveNoReset(w: Window, raw: seq<RawPoint>)
    requires w.kind.Absolute?
    ensures NoReset(w, raw)
  {
  }

  lemma ScaleUp(x: real, c: real, d: real)
    requires x >= 0.0 && c <= d
    ensures x * c <= x * d
  {
    assert x * (d - c) >= 0.0;
  }
}
