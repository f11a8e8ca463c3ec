/** What the rate of a counter means, with and without resets. */
module Counters {
  import opened TimeSeries
  import opened Curve
  import opened Extremes

  /** Over the stretch shared with the window, a counter that does not fall contributes the growth of its
      interpolated reading. */
  lemma AmountIsGrowth(w: Window, p: RawPoint, q: RawPoint)
    requires w.kind.Rate? && Overlaps(w, p, q) && !Falling(p, q)
    ensures var (lo, hi) := (Later(p.asof, w.ts) as real, Earlier(q.asof, w.te) as real);
            Amount(w, p, q) == LineAt(p, q, hi) - LineAt(p, q, lo)
  {
    RiseOverStretch(p, q, Later(p.asof, w.ts) as real, Earlier(q.asof, w.te) as real);
    hide LineAt, Slope;
  }

  lemma QuotientsAgree(a: real, c: real, d: real)
    requires 0.0 < c <= d
    ensures a / c == a / d <==> c == d || a == 0.0
  {
    Quotient(a, c);
    Quotient(a, d);
    if a / c == a / d {
      assert a / c * (d - c) == 0.0 by { ScaleDifference(a / c, c, d); }
      assert d != c ==> a / c == 0.0;
    }
  }

  /** The mean rate over the part of the window where it is known. */
  function KnownMean(w: Window, raw: seq<RawPoint>): Float {
    if TotalKnownCover(w, raw) > 0.0 then Num(TotalAmount(w, raw) / TotalKnownCover(w, raw)) else NaN
  }

  /** The reported rate is the mean rate over the part where it is known exactly when the window covers no
      reset, or something is known and nothing grew there: a covered reset dilutes the average. */
  lemma {:induction false} RateIsTrueMeanIff(w: Window, raw: seq<RawPoint>, p: IntPoint)
    requires w.kind.Rate? && IsStep(w, raw, p)
    ensures p.avg == KnownMean(w, raw) <==>
            NoReset(w, raw) || (TotalKnownCover(w, raw) > 0.0 && TotalAmount(w, raw) == 0.0)
  {
    TotalKnownIff(w, raw);
    hide IsMin, IsMax, Marks, TotalAmount, TotalCover, TotalKnownCover, NoReset;
    if TotalKnownCover(w, raw) > 0.0 {
      QuotientsAgree(TotalAmount(w, raw), TotalKnownCover(w, raw), TotalCover(w, raw));
    }
  }

  lemma Diluted(r: real, c: real, d: real)
    requires r >= 0.0 && 0.0 < c <= d
    ensures r * c / d < r <==> r > 0.0 && c < d
  {
    Quotient(r * c, d);
    ScaleDifference(r, c, d);
    assert (r - r * c / d) * d == r * d - r * c;
    assert r * d - r * c == r * (d - c);
    assert r > 0.0 && c < d ==> r * (d - c) > 0.0;
  }

  /** Where all known rates in the window are the same, the average falls below the minimum exactly when that rate
      is positive and a reset is covered. */
  lemma {:induction false} ResetDilutesAverageIff(w: Window, raw: seq<RawPoint>, p: IntPoint)
    requires w.kind.Rate? && IsStep(w, raw, p) && p.min.Num? && p.min == p.max
    ensures p.avg.Num? && (p.avg.v < p.min.v <==> p.min.v > 0.0 && !NoReset(w, raw))
  {
    hide TotalAmount, TotalCover, TotalKnownCover, Marks, NoReset;
    assert TotalCover(w, raw) > 0.0;
    KnownMeanWithin(w, raw, p);
    TotalKnownIff(w, raw);
    assert TotalKnownCover(w, raw) > 0.0 by { MarkIsKnown(w, raw, p.min.v); }
    assert TotalAmount(w, raw) == p.min.v * TotalKnownCover(w, raw);
    Diluted(p.min.v, TotalKnownCover(w, raw), TotalCover(w, raw));
  }

  lemma {:induction false} KnownSegmentIsCovered(w: Window, raw: seq<RawPoint>, k: nat, n: nat)
    requires k < n <= Segments(raw)
    ensures KnownCover(w, raw[k], raw[k+1]) <= KnownCoverUpTo(w, raw, n)
  {
    KnownCoverIsLess(w, raw, n - 1);
    if k == n - 1 {
    } else {
      SegmentKnown(w, raw, n - 1);
      KnownSegmentIsCovered(w, raw, k, n - 1);
    }
  }

  lemma MarkIsKnown(w: Window, raw: seq<RawPoint>, v: real)
    requires w.kind.Rate? && v in Marks(w, raw)
    ensures TotalKnownCover(w, raw) > 0.0
  {
    var k := MarkOf(w, raw, v, |raw|);
    KnownSegmentIsCovered(w, raw, k, Segments(raw));
  }

  // ----- Two inputs -----

  /** A counter that rises at rate 1, falls, and is sampled inside one step: the average lies below Min. */
  lemma {:induction false} ResetDilutesAverage(p: IntPoint)
    requires var raw := [RawPoint(0, 0.0), RawPoint(10, 10.0), RawPoint(20, 0.0)];
             IsStep(Window(Rate, 0, 20, 20), raw, p)
    ensures p.min == Num(1.0) && p.avg == Num(0.5)
  {
    var w := Window(Rate, 0, 20, 20);
    var raw := [RawPoint(0, 0.0), RawPoint(10, 10.0), RawPoint(20, 0.0)];
    assert Slope(raw[0], raw[1]) == 1.0;
    assert AmountUpTo(w, raw, 1) == 10.0 && CoverUpTo(w, raw, 1) == 10.0;
    assert AmountUpTo(w, raw, 2) == 10.0 && CoverUpTo(w, raw, 2) == 20.0;
    assert MarksAt(w, raw, 0) == {1.0} && MarksAt(w, raw, 1) == {} && MarksAt(w, raw, 2) == {};
    assert MarksUpTo(w, raw, 1) == {1.0} && MarksUpTo(w, raw, 2) == {1.0} && Marks(w, raw) == {1.0};
  }

  /** A counter that only falls in the step: the average is a number, the extremes are not. */
  lemma {:induction false} OnlyAReset(p: IntPoint)
    requires IsStep(Window(Rate, 0, 20, 20), [RawPoint(0, 10.0), RawPoint(10, 0.0)], p)
    ensures p.avg == Num(0.0) && p.min.NaN? && p.max.NaN?
  {
    var w := Window(Rate, 0, 20, 20);
    var raw := [RawPoint(0, 10.0), RawPoint(10, 0.0)];
    NotANumberIff(w, raw, p);
    assert Overlaps(w, raw[0], raw[1]) && Falling(raw[0], raw[1]);
    assert SomeCovered(w, raw);
    assert !SomeKnown(w, raw);
  }
}
