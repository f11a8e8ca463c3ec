/** What an output of the resampler is, written out in timestamps and values. */
module StepMeaning {
  import opened TimeSeries
  import opened Curve
  import opened Conservation
  import opened Extremes
  import opened Interpol8
  import Insertion
  import Trim

  // ----- One segment -----

  /** Samples further apart than maxFill are not joined: they count for nothing, however they lie to the window. */
  lemma FarApart(w: Window, raw: seq<RawPoint>, k: nat)
    requires k < |raw| - 1 && raw[k+1].asof - raw[k].asof > w.maxFill
    ensures Amount(w, raw[k], raw[k+1]) == 0.0 == Cover(w, raw[k], raw[k+1])
    ensures MarksAt(w, raw, k)
         == if w.kind.Absolute? && w.ts <= raw[k].asof <= w.te then {raw[k].value} else {}
  {
  }

  /** Nor do samples at the same time, or ones that lie to one side of the window. */
  lemma Beside(w: Window, raw: seq<RawPoint>, k: nat)
    requires k < |raw| - 1 && w.ts < w.te
    requires raw[k+1].asof <= raw[k].asof || raw[k+1].asof <= w.ts || raw[k].asof >= w.te
    ensures Amount(w, raw[k], raw[k+1]) == 0.0 == Cover(w, raw[k], raw[k+1])
    ensures MarksAt(w, raw, k)
         == if w.kind.Absolute? && w.ts <= raw[k].asof <= w.te then {raw[k].value} else {}
  {
  }

  /** Two samples at most maxFill apart: a gauge contributes the trapezoid under their line over the stretch
      shared with the window; a counter what it rose over that stretch, and nothing if it fell.  The stretch is
      covered, unless a counter fell across all of the window. */
  lemma Share(w: Window, p: RawPoint, q: RawPoint, lo: int, hi: int)
    requires 0 < q.asof - p.asof <= w.maxFill && p.asof < w.te && w.ts < q.asof && w.ts < w.te
    requires lo == (if p.asof < w.ts then w.ts else p.asof) && hi == (if q.asof < w.te then q.asof else w.te)
    ensures var a := p.value + ((lo - p.asof) as real / (q.asof - p.asof) as real) * (q.value - p.value);
            var b := p.value + ((hi - p.asof) as real / (q.asof - p.asof) as real) * (q.value - p.value);
            && (w.kind == Absolute ==> Amount(w, p, q) == (hi - lo) as real * (a + b) / 2.0)
            && (w.kind == Rate ==> Amount(w, p, q) == if q.value < p.value then 0.0 else b - a)
    ensures Cover(w, p, q) ==
            if w.kind == Rate && q.value < p.value && p.asof < w.ts && w.te < q.asof then 0.0 else (hi - lo) as real
  {
    hide LineAt, Primitive, Slope, Amount, Cover;
    RatioIsOnLine(p, q, lo);
    RatioIsOnLine(p, q, hi);
    ShareByLine(w, p, q, lo, hi);
    TrapezoidIsIntegral(p, q, lo as real, hi as real);
    assert (hi - lo) as real == hi as real - lo as real;
  }

  lemma ShareByLine(w: Window, p: RawPoint, q: RawPoint, lo: int, hi: int)
    requires 0 < q.asof - p.asof <= w.maxFill && p.asof < w.te && w.ts < q.asof && w.ts < w.te
    requires lo == (if p.asof < w.ts then w.ts else p.asof) && hi == (if q.asof < w.te then q.asof else w.te)
    ensures w.kind == Absolute ==> Amount(w, p, q) == Primitive(p, q, hi as real) - Primitive(p, q, lo as real)
    ensures w.kind == Rate ==>
              Amount(w, p, q)
                == if q.value < p.value then 0.0 else LineAt(p, q, hi as real) - LineAt(p, q, lo as real)
    ensures Cover(w, p, q) ==
            if w.kind == Rate && q.value < p.value && p.asof < w.ts && w.te < q.asof then 0.0 else (hi - lo) as real
  {
    RiseOverStretch(p, q, lo as real, hi as real);
    hide LineAt, Primitive, Slope;
  }

  /** The amount and the covered length of a step are the sums over all neighbouring samples. */
  lemma {:induction false} Sums(w: Window, raw: seq<RawPoint>, n: nat)
    requires n + 1 < |raw|
    ensures AmountUpTo(w, raw, 0) == 0.0 == CoverUpTo(w, raw, 0)
    ensures AmountUpTo(w, raw, n + 1) == AmountUpTo(w, raw, n) + Amount(w, raw[n], raw[n+1])
    ensures CoverUpTo(w, raw, n + 1) == CoverUpTo(w, raw, n) + Cover(w, raw[n], raw[n+1])
    ensures TotalAmount(w, raw) == AmountUpTo(w, raw, |raw| - 1) && TotalCover(w, raw) == CoverUpTo(w, raw, |raw| - 1)
  {
    hide Amount, Cover;
  }

  // ----- Minimum and maximum -----

  /** The height at time t of the line between samples k and k+1. */
  function HeightAt(raw: seq<RawPoint>, k: nat, t: int): real
    requires k < |raw| - 1 && raw[k].asof < raw[k+1].asof
  {
    LineAt(raw[k], raw[k+1], t as real)
  }

  lemma HeightIs(raw: seq<RawPoint>, k: nat, t: int)
    requires k < |raw| - 1 && raw[k].asof < raw[k+1].asof
    ensures HeightAt(raw, k, t) ==
            raw[k].value
            + ((t - raw[k].asof) as real / (raw[k+1].asof - raw[k].asof) as real) * (raw[k+1].value - raw[k].value)
  {
    RatioIsOnLine(raw[k], raw[k+1], t);
  }

  /** The marks of a gauge: its samples in [ts, te], and the heights at which the line between two samples at most
      maxFill apart enters and leaves the window. */
  lemma GaugeMarksIff(w: Window, raw: seq<RawPoint>, v: real)
    requires w.kind == Absolute && w.ts < w.te
    ensures v in Marks(w, raw) <==>
            || (exists k :: 0 <= k < |raw| && w.ts <= raw[k].asof <= w.te && v == raw[k].value)
            || (exists k :: 0 <= k < |raw| - 1 && raw[k+1].asof - raw[k].asof <= w.maxFill
                            && raw[k].asof < w.ts < raw[k+1].asof && v == HeightAt(raw, k, w.ts))
            || (exists k :: 0 <= k < |raw| - 1 && raw[k+1].asof - raw[k].asof <= w.maxFill
                            && raw[k].asof < w.te < raw[k+1].asof && v == HeightAt(raw, k, w.te))
  {
    hide LineAt;
    if v in Marks(w, raw) {
      var k := MarkOf(w, raw, v, |raw|);
      assert (w.ts <= raw[k].asof <= w.te && v == raw[k].value)
        || (k < |raw| - 1 && raw[k].asof < w.ts < raw[k+1].asof && v == HeightAt(raw, k, w.ts))
        || (k < |raw| - 1 && raw[k].asof < w.te < raw[k+1].asof && v == HeightAt(raw, k, w.te));
    }
    if k :| 0 <= k < |raw| && w.ts <= raw[k].asof <= w.te && v == raw[k].value {
      MarksContain(w, raw, k, |raw|);
    }
    if k :| 0 <= k < |raw| - 1 && raw[k+1].asof - raw[k].asof <= w.maxFill
            && raw[k].asof < w.ts < raw[k+1].asof && v == HeightAt(raw, k, w.ts) {
      MarksContain(w, raw, k, |raw|);
    }
    if k :| 0 <= k < |raw| - 1 && raw[k+1].asof - raw[k].asof <= w.maxFill
            && raw[k].asof < w.te < raw[k+1].asof && v == HeightAt(raw, k, w.te) {
      MarksContain(w, raw, k, |raw|);
    }
  }

  /** The marks of a counter: the rates of its segments at most maxFill apart that reach into the window, but for
      those on which it fell. */
  lemma CounterMarksIff(w: Window, raw: seq<RawPoint>, v: real)
    requires w.kind == Rate && w.ts < w.te
    ensures v in Marks(w, raw) <==>
            exists k :: 0 <= k < |raw| - 1 && 0 < raw[k+1].asof - raw[k].asof <= w.maxFill
                        && raw[k].asof < w.te && w.ts < raw[k+1].asof && raw[k].value <= raw[k+1].value
                        && v == (raw[k+1].value - raw[k].value) / (raw[k+1].asof - raw[k].asof) as real
  {
    if v in Marks(w, raw) {
      var k := MarkOf(w, raw, v, |raw|);
    }
    if k :| 0 <= k < |raw| - 1 && 0 < raw[k+1].asof - raw[k].asof <= w.maxFill
            && raw[k].asof < w.te && w.ts < raw[k+1].asof && raw[k].value <= raw[k+1].value
            && v == (raw[k+1].value - raw[k].value) / (raw[k+1].asof - raw[k].asof) as real {
      MarksContain(w, raw, k, |raw|);
      assert v in MarksAt(w, raw, k);
    }
  }

  // ----- The output -----

  lemma CoversIff(w: Window, p: RawPoint, q: RawPoint)
    requires w.ts < w.te
    ensures Overlaps(w, p, q) && !(w.kind.Rate? && Falling(p, q) && Spans(w, p, q)) <==>
            && 0 < q.asof - p.asof <= w.maxFill && p.asof < w.te && w.ts < q.asof
            && !(w.kind == Rate && q.value < p.value && p.asof < w.ts && w.te < q.asof)
  {
  }

  /** An output is a number exactly when a gauge sample lies in [ts, te), or two samples at most maxFill apart reach
      into the step -- a counter that falls across all of it does not count. */
  lemma NumberIff(w: Window, raw: seq<RawPoint>, p: IntPoint)
    requires w.ts < w.te && Sorted(raw) && IsStep(w, raw, p)
    ensures p.asof == w.ts
    ensures p.avg.Num? <==>
            || (w.kind == Absolute && exists k :: 0 <= k < |raw| && w.ts <= raw[k].asof < w.te)
            || (exists k :: 0 <= k < |raw| - 1 && 0 < raw[k+1].asof - raw[k].asof <= w.maxFill
                            && raw[k].asof < w.te && w.ts < raw[k+1].asof
                            && !(w.kind == Rate && raw[k+1].value < raw[k].value
                                 && raw[k].asof < w.ts && w.te < raw[k+1].asof))
  {
    hide TotalAmount, TotalCover, Marks, FirstWithin, Overlaps, Falling, Spans;
    NotANumberIff(w, raw, p);
    forall k | 0 <= k < |raw| - 1
      ensures Overlaps(w, raw[k], raw[k+1])
              && !(w.kind.Rate? && Falling(raw[k], raw[k+1]) && Spans(w, raw[k], raw[k+1])) <==>
              && 0 < raw[k+1].asof - raw[k].asof <= w.maxFill && raw[k].asof < w.te && w.ts < raw[k+1].asof
              && !(w.kind == Rate && raw[k+1].value < raw[k].value && raw[k].asof < w.ts && w.te < raw[k+1].asof)
    {
      CoversIff(w, raw[k], raw[k+1]);
    }
    hide IsMin, IsMax, IsPoint;
  }

  /** Where no two samples reach into the step like that, its first sample in [ts, te) stands for it. */
  lemma {:induction false} LoneSample(w: Window, raw: seq<RawPoint>, p: IntPoint, k: nat)
    requires w.kind == Absolute && w.ts < w.te && IsStep(w, raw, p)
    requires k < |raw| && w.ts <= raw[k].asof < w.te && forall j :: 0 <= j < k ==> raw[j].asof < w.ts
    requires forall j :: 0 <= j < |raw| - 1 ==>
               !(0 < raw[j+1].asof - raw[j].asof <= w.maxFill && raw[j].asof < w.te && w.ts < raw[j+1].asof)
    ensures p == IntPoint(w.ts, Num(raw[k].value), Num(raw[k].value), Num(raw[k].value))
  {
    hide TotalAmount, TotalCover, Marks, Overlaps, Falling, Spans, FirstFrom;
    CoveredIff(w, raw);
    Trim.FirstFromIs(raw, w.ts, k);
    forall j | 0 <= j < |raw| - 1 ensures !Overlaps(w, raw[j], raw[j+1]) {
      CoversIff(w, raw[j], raw[j+1]);
    }
  }

  /** Elsewhere its average is the amount over the covered length, and minimum and maximum are the extremes of its
      marks. */
  lemma CoveredStep(w: Window, raw: seq<RawPoint>, p: IntPoint)
    requires IsStep(w, raw, p) && TotalCover(w, raw) > 0.0
    ensures p.avg.Num? && p.avg.v * TotalCover(w, raw) == TotalAmount(w, raw)
    ensures if Marks(w, raw) == {} then p.min.NaN? && p.max.NaN?
            else && p.min.Num? && p.max.Num? && p.min.v in Marks(w, raw) && p.max.v in Marks(w, raw)
                 && forall v :: v in Marks(w, raw) ==> p.min.v <= v <= p.max.v
  {
    hide TotalAmount, TotalCover, Marks;
    Quotient(TotalAmount(w, raw), TotalCover(w, raw));
  }

  // ----- The steps -----

  /** The k-th step is [start + k*step, start + (k+1)*step); as many as it takes to reach the end, and no more. */
  lemma StepsAre(kind: Kind, start: int, end: int, step: int, maxFill: int, k: int)
    requires start < end && step > 0
    ensures StepWindow(kind, start, step, maxFill, k)
         == Window(kind, start + k * step, start + (k + 1) * step, maxFill)
    ensures (StepCount(start, end, step) - 1) * step < end - start <= StepCount(start, end, step) * step
  {
    Times(k, 1, step);
    RoundedUp(end - start, step);
    Times((end - start - 1) / step, 1, step);
  }

  // ----- What the results about steps speak of -----

  /** The outputs of a range added up, each times what its step covers. */
  lemma {:induction false} OutputsInNumbers(raw: seq<RawPoint>, kind: Kind, start: int, step: int, maxFill: int,
                                            res: seq<IntPoint>, n: nat)
    requires n < |res|
    ensures var w := Window(kind, start + n * step, start + n * step + step, maxFill);
            && OutputAmount(raw, kind, start, step, maxFill, res, 0) == 0.0
            && OutputCover(raw, kind, start, step, maxFill, 0) == 0.0
            && OutputAmount(raw, kind, start, step, maxFill, res, n + 1)
               == OutputAmount(raw, kind, start, step, maxFill, res, n)
                  + (if res[n].avg.Num? then res[n].avg.v * TotalCover(w, raw) else 0.0)
            && OutputCover(raw, kind, start, step, maxFill, n + 1)
               == OutputCover(raw, kind, start, step, maxFill, n) + TotalCover(w, raw)
  {
    hide TotalCover;
  }

  /** All that a counter rose up to a sample, and the length of a step over which its growth is known. */
  lemma {:induction false} RiseInNumbers(w: Window, raw: seq<RawPoint>, n: nat)
    requires n + 1 < |raw|
    ensures Rise(raw, 0) == 0.0
    ensures Rise(raw, n + 1)
         == Rise(raw, n) + if raw[n+1].value < raw[n].value then 0.0 else raw[n+1].value - raw[n].value
    ensures KnownCoverUpTo(w, raw, 0) == 0.0
    ensures KnownCoverUpTo(w, raw, n + 1)
         == KnownCoverUpTo(w, raw, n)
            + if w.kind == Rate && raw[n+1].value < raw[n].value then 0.0 else Cover(w, raw[n], raw[n+1])
    ensures TotalKnownCover(w, raw) == KnownCoverUpTo(w, raw, |raw| - 1)
  {
    hide Cover;
  }

  /** The height of the line between samples k and k+1 at any time. */
  function LineHeight(raw: seq<RawPoint>, k: int, t: real): (v: real)
    ensures 0 <= k < |raw| - 1 && raw[k].asof < raw[k+1].asof ==>
              v == raw[k].value
                   + (raw[k+1].value - raw[k].value) / (raw[k+1].asof as real - raw[k].asof as real)
                     * (t - raw[k].asof as real)
  {
    if 0 <= k < |raw| - 1 && raw[k].asof < raw[k+1].asof then LineAt(raw[k], raw[k+1], t) else 0.0
  }

  /** A value is reached in a step by a sample in [ts, te], or by the line between two samples at most maxFill apart
      at some time of the step. */
  lemma ReachedIff(w: Window, raw: seq<RawPoint>, v: real)
    requires w.ts < w.te
    ensures Reached(w, raw, v) <==>
              || (exists k :: 0 <= k < |raw| && w.ts <= raw[k].asof <= w.te && v == raw[k].value)
              || (exists k, t :: && 0 <= k < |raw| - 1 && 0 < raw[k+1].asof - raw[k].asof <= w.maxFill
                                 && raw[k].asof < w.te && w.ts < raw[k+1].asof && w.ts as real <= t <= w.te as real
                                 && raw[k].asof as real <= t <= raw[k+1].asof as real && v == LineHeight(raw, k, t))
  {
    hide LineAt;
    if k :| 0 <= k < |raw| && w.ts <= raw[k].asof <= w.te && v == raw[k].value {
      assert SampleReaches(w, raw, k, v);
    }
    if k, t :| && 0 <= k < |raw| - 1 && 0 < raw[k+1].asof - raw[k].asof <= w.maxFill
               && raw[k].asof < w.te && w.ts < raw[k+1].asof && w.ts as real <= t <= w.te as real
               && raw[k].asof as real <= t <= raw[k+1].asof as real && v == LineHeight(raw, k, t)
    {
      assert CurveReaches(w, raw, k, t, v);
    }
    if k, t :| CurveReaches(w, raw, k, t, v) {
      assert LineHeight(raw, k, t) == v;
    }
  }

  /** A step covers a reset where a falling counter overlaps it without reaching beyond both its ends. */
  lemma ResetsIff(w: Window, raw: seq<RawPoint>)
    requires w.ts < w.te
    ensures NoReset(w, raw) <==>
              !exists k :: 0 <= k < |raw| - 1 && 0 < raw[k+1].asof - raw[k].asof <= w.maxFill
                 && raw[k].asof < w.te && w.ts < raw[k+1].asof
                 && w.kind == Rate && raw[k+1].value < raw[k].value && (w.ts <= raw[k].asof || raw[k+1].asof <= w.te)
  {
    if k :| && 0 <= k < |raw| - 1 && 0 < raw[k+1].asof - raw[k].asof <= w.maxFill
            && raw[k].asof < w.te && w.ts < raw[k+1].asof
            && w.kind == Rate && raw[k+1].value < raw[k].value && (w.ts <= raw[k].asof || raw[k+1].asof <= w.te)
    {
      assert ResetAt(w, raw, k);
    }
  }

  /** Something is known of a step where any other pair overlaps it. */
  lemma KnownIff(w: Window, raw: seq<RawPoint>)
    requires w.ts < w.te
    ensures SomeKnown(w, raw) <==>
              exists k :: 0 <= k < |raw| - 1 && 0 < raw[k+1].asof - raw[k].asof <= w.maxFill
                 && raw[k].asof < w.te && w.ts < raw[k+1].asof && !(w.kind == Rate && raw[k+1].value < raw[k].value)
  {
    if k :| && 0 <= k < |raw| - 1 && 0 < raw[k+1].asof - raw[k].asof <= w.maxFill
            && raw[k].asof < w.te && w.ts < raw[k+1].asof && !(w.kind == Rate && raw[k+1].value < raw[k].value)
    {
      assert Overlaps(w, raw[k], raw[k+1]);
    }
  }

  lemma SampleIff(w: Window, raw: seq<RawPoint>)
    ensures SomeSample(w, raw) <==> w.kind == Absolute && exists k :: 0 <= k < |raw| && w.ts <= raw[k].asof < w.te
  {
  }

  lemma CoveredOrReset(w: Window, raw: seq<RawPoint>)
    ensures SomeCovered(w, raw) <==> SomeKnown(w, raw) || !NoReset(w, raw)
  {
    if k :| 0 <= k < Segments(raw) && ResetAt(w, raw, k) {
      assert Overlaps(w, raw[k], raw[k+1]);
      hide Overlaps, Spans;
      assert SomeCovered(w, raw);
    }
    if SomeKnown(w, raw) {
      hide Overlaps, Spans;
      var k :| 0 <= k < |raw| - 1 && Overlaps(w, raw[k], raw[k+1]) && !(w.kind.Rate? && Falling(raw[k], raw[k+1]));
      assert SomeCovered(w, raw);
    }
    if SomeCovered(w, raw) {
      hide Overlaps, Spans;
      var k :| 0 <= k < |raw| - 1 && Overlaps(w, raw[k], raw[k+1])
               && !(w.kind.Rate? && Falling(raw[k], raw[k+1]) && Spans(w, raw[k], raw[k+1]));
      assert ResetAt(w, raw, k) || SomeKnown(w, raw);
    }
  }

  /** What is inserted where, and what it means that it lies on the line. */
  lemma InsertionInNumbers(raw: seq<RawPoint>, k: nat, q: RawPoint)
    requires k < |raw| - 1
    ensures Insertion.Inserted(raw, k, q) == raw[..k+1] + [q] + raw[k+1..]
    ensures Insertion.Between(raw[k], q, raw[k+1]) <==>
              raw[k].asof < q.asof < raw[k+1].asof && q.value == HeightAt(raw, k, q.asof)
  {
    hide LineAt;
  }
}
