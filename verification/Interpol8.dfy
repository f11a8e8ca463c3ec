/**
 The time-series resampler, step by step as it runs.

 `Raw` is proved against `IsStep` on the caller's own array, so its contract already says that
 neither trim, nor the carried cursor, nor the empty-input shortcut can be seen from outside.
 */
module Interpol8 {
  import opened TimeSeries
  import opened Curve
  import opened Trim
  import opened Wrappers

  datatype Error = EndNotAfterStart | StepTooSmall | MaxFillTooSmall | NotSorted | TooManyPoints | InternalError

  const MAX_POINTS := 1000000

  /** The number of steps of the given width that cover [start, end). */
  function StepCount(start: int, end: int, step: int): int
    requires start < end && step > 0
  {
    (end - 1 - start) / step + 1
  }

  const WRAP := 0x1_0000_0000_0000_0000

  /** 64 bits of a sum. */
  function Wrapped(n: nat): (r: uint64)
    ensures n < WRAP ==> r == n
  {
    n % WRAP
  }

  // ----- Helper functions of the resampler -----

  method AdjustEnd(start: uint64, end: uint64, step: uint64) returns (r: Result<(nat, uint64), Error>)
    requires step > 0
    ensures end <= start ==> r == Err(EndNotAfterStart)
    ensures start < end && MAX_POINTS < StepCount(start, end, step) ==> r == Err(TooManyPoints)
    ensures start < end && StepCount(start, end, step) <= MAX_POINTS ==>
              && r.Ok? && r.value.0 == StepCount(start, end, step) > 0
              && r.value.1 == Wrapped(start + r.value.0 * step)
              && end <= start + r.value.0 * step < end + step
  {
    if end <= start {
      return Err(EndNotAfterStart);
    }
    RoundedUp(end - start, step);
    var count: uint64 := (end - 1 - start) / step + 1;
    assert count == StepCount(start, end, step);
    if count > MAX_POINTS {
      return Err(TooManyPoints);
    }
    var newEnd := Wrapped(start + count * step);
    return Ok((count, newEnd));
  }

  lemma RoundedUp(length: int, step: int)
    requires length > 0 && step > 0
    ensures 0 < (length - 1) / step + 1 <= length
    ensures length <= ((length - 1) / step + 1) * step < length + step
    ensures ((length - 1) / step) * step < length
  {
    var k, m := (length - 1) / step, (length - 1) % step;
    assert length - 1 == k * step + m && 0 <= m < step;
    Times(k, 1, step);
    AtLeast(k, step);
  }

  lemma AtLeast(k: int, step: int)
    requires step > 0
    ensures k >= 0 ==> k <= k * step
    ensures k < 0 ==> k * step < 0
  {
    if k >= 0 {
      assert k * (step - 1) >= 0;
    }
  }

  /** Keep the sample before the first one past start. */
  method LTrim(raw: seq<RawPoint>, start: uint64) returns (r: seq<RawPoint>)
    ensures r == raw[Dropped(raw, start)..]
  {
    var i := 1;
    while i < |raw|
      invariant 1 <= i
      invariant forall k :: 1 <= k < i && k < |raw| ==> raw[k].asof <= start
    {
      if raw[i].asof > start {
        return raw[i-1..];
      }
      i := i + 1;
    }
    return raw;
  }

  /** Keep one sample past the last one before end+step, whatever 64 bits make of that sum. */
  method RTrim(raw: seq<RawPoint>, end: uint64, step: uint64) returns (r: seq<RawPoint>)
    ensures r <= raw
    ensures var limit := Wrapped(end + step);
            && (r != raw ==> |r| > 2 && raw[|r|-1].asof >= limit && raw[|r|-2].asof < limit)
            && (r != raw ==> forall k :: |r| - 2 < k < |raw| - 1 ==> raw[k].asof >= limit)
            && (r == raw ==>
                  |raw| < 3 || raw[|raw|-2].asof < limit || forall k :: 0 < k < |raw| - 1 ==> raw[k].asof >= limit)
  {
    var limit := Wrapped(end + step);
    var i := |raw| - 2;
    while i > 0
      invariant i <= |raw| - 2
      invariant forall k :: 0 < k && i < k < |raw| - 1 ==> raw[k].asof >= limit
    {
      if raw[i].asof < limit {
        return raw[..i+2];
      }
      i := i - 1;
    }
    return raw;
  }

  method MakeNaNs(start: uint64, step: uint64, count: nat) returns (res: seq<IntPoint>)
    requires 0 < step && start + count * step < 0x1_0000_0000_0000_0000
    ensures |res| == count
    ensures forall i :: 0 <= i < count ==> res[i] == IntPoint(start + i * step, NaN, NaN, NaN)
  {
    var a := new IntPoint[count](_ => IntPoint(0, NaN, NaN, NaN));
    for i := 0 to count
      invariant forall k :: 0 <= k < i ==> a[k] == IntPoint(start + k * step, NaN, NaN, NaN)
    {
      StepFits(i, count, step);
      AtLeast(i, step);
      a[i] := IntPoint(start + i * step, NaN, NaN, NaN);
    }
    return a[..];
  }

  // ----- One segment within one step -----

  /** The comparison of float64 values: false as soon as one is not a number. */
  predicate Less(a: Float, b: Float) { a.Num? && b.Num? && a.v < b.v }

  function LowerOf(min: Float, v: Float): Float { if min.NaN? || Less(v, min) then v else min }

  function HigherOf(max: Float, v: Float): Float { if max.NaN? || Less(max, v) then v else max }

  lemma ExtremesGrow(min: Float, max: Float, s: set<real>, v: real)
    requires IsMin(min, s) && IsMax(max, s)
    ensures IsMin(LowerOf(min, Num(v)), s + {v}) && IsMax(HigherOf(max, Num(v)), s + {v})
  {
    assert v in s + {v};
  }

  // The four ways a segment can lie across a step, as the case split computes them.

  lemma InsideStep(w: Window, p: RawPoint, q: RawPoint)
    requires Overlaps(w, p, q) && w.ts <= p.asof && q.asof <= w.te
    ensures w.kind.Absolute? ==> Amount(w, p, q) == (q.asof - p.asof) as real * (q.value + p.value) / 2.0
    ensures w.kind.Rate? && !Falling(p, q) ==> Amount(w, p, q) == q.value - p.value
  {
    SlopeTimesLength(p, q);
    TrapezoidIsIntegral(p, q, p.asof as real, q.asof as real);
  }

  lemma EntersStep(w: Window, p: RawPoint, q: RawPoint, iy: real)
    requires Overlaps(w, p, q) && p.asof < w.ts && q.asof <= w.te
    requires iy == LineAt(p, q, w.ts as real)
    ensures w.kind.Absolute? ==> Amount(w, p, q) == (q.asof - w.ts) as real * (q.value + iy) / 2.0
    ensures Falling(p, q) <==> q.value < iy
    ensures w.kind.Rate? && !Falling(p, q) ==> Amount(w, p, q) == q.value - iy
  {
    SlopeTimesLength(p, q);
    TrapezoidIsIntegral(p, q, w.ts as real, q.asof as real);
    RiseOverStretch(p, q, w.ts as real, q.asof as real);
  }

  lemma LeavesStep(w: Window, p: RawPoint, q: RawPoint, iy: real)
    requires Overlaps(w, p, q) && w.ts <= p.asof && w.te < q.asof
    requires iy == LineAt(p, q, w.te as real)
    ensures w.kind.Absolute? ==> Amount(w, p, q) == (w.te - p.asof) as real * (p.value + iy) / 2.0
    ensures Falling(p, q) <==> iy < p.value
    ensures w.kind.Rate? && !Falling(p, q) ==> Amount(w, p, q) == iy - p.value
  {
    SlopeTimesLength(p, q);
    TrapezoidIsIntegral(p, q, p.asof as real, w.te as real);
    RiseOverStretch(p, q, p.asof as real, w.te as real);
  }

  lemma SpansStep(w: Window, p: RawPoint, q: RawPoint, iy1: real, iy2: real)
    requires Overlaps(w, p, q) && Spans(w, p, q) && w.kind.Absolute?
    requires iy1 == LineAt(p, q, w.ts as real) && iy2 == LineAt(p, q, w.te as real)
    ensures Amount(w, p, q) == (w.te - w.ts) as real * (iy1 + iy2) / 2.0
  {
    TrapezoidIsIntegral(p, q, w.ts as real, w.te as real);
  }

  /** What the running sums of a step become when the segment p, q is added. */
  datatype Sums = Sums(num: real, denom: real, min: Float, max: Float)

  /** A counter segment spanning the whole step is taken unscaled and overwrites the running sums. */
  predicate Unscaled(w: Window, p: RawPoint, q: RawPoint) {
    w.kind.Rate? && Overlaps(w, p, q) && Spans(w, p, q) && !Falling(p, q)
  }

  /** The marks of a segment without its samples. */
  function SegmentMarks(w: Window, p: RawPoint, q: RawPoint): set<real> {
    if !Overlaps(w, p, q) then {}
    else if w.kind.Absolute? then CutsOf(w, p, q)
    else if Falling(p, q) then {} else {Slope(p, q)}
  }

  /** The rate from p to q; unknown when the counter fell. */
  function RawRate(w: Window, p: RawPoint, q: RawPoint): Float {
    if w.kind.Rate? && p.asof < q.asof then
      if Slope(p, q) < 0.0 then NaN else Num(Slope(p, q))
    else Num(0.0)
  }

  /** The value on the way from p to q, a part of the whole length after p. */
  method Interpolate(p: RawPoint, q: RawPoint, part: uint64, len: uint64) returns (iy: real)
    requires p.asof < q.asof && len == q.asof - p.asof
    ensures iy == LineAt(p, q, (p.asof + part) as real)
  {
    var ratio := part as real / len as real;
    iy := p.value + ratio * (q.value - p.value);
    RatioIsOnLine(p, q, p.asof + part);
  }

  // Both points inside the step.
  method AddInside(w: Window, p: RawPoint, q: RawPoint, rawRate: Float, sums: Sums, ghost seen: set<real>)
    returns (r: Sums)
    requires 0 <= w.ts < w.te < 0x1_0000_0000_0000_0000
    requires Overlaps(w, p, q) && w.ts <= p.asof && q.asof <= w.te
    requires rawRate == RawRate(w, p, q)
    requires IsMin(sums.min, seen) && IsMax(sums.max, seen)
    ensures r.num == sums.num + Amount(w, p, q) && r.denom == sums.denom + Cover(w, p, q)
    ensures IsMin(r.min, seen + SegmentMarks(w, p, q)) && IsMax(r.max, seen + SegmentMarks(w, p, q))
  {
    InsideStep(w, p, q);
    SlopeTimesLength(p, q);
    var d: uint64 := q.asof - p.asof;
    var dx := d as real;
    r := sums.(denom := sums.denom + dx);
    if w.kind == Absolute {
      r := r.(num := sums.num + dx * (q.value + p.value) / 2.0);
      assert seen + SegmentMarks(w, p, q) == seen;
    } else if q.value >= p.value {
      ExtremesGrow(sums.min, sums.max, seen, Slope(p, q));
      r := r.(num := sums.num + (q.value - p.value),
              min := LowerOf(sums.min, rawRate), max := HigherOf(sums.max, rawRate));
    } else {
      assert Falling(p, q);
      assert seen + SegmentMarks(w, p, q) == seen;
    }
  }

  // p is before and q is inside the step.
  method AddEntering(w: Window, p: RawPoint, q: RawPoint, rawRate: Float, sums: Sums, ghost seen: set<real>)
    returns (r: Sums)
    requires 0 <= w.ts < w.te < 0x1_0000_0000_0000_0000
    requires Overlaps(w, p, q) && p.asof < w.ts && q.asof <= w.te
    requires rawRate == RawRate(w, p, q)
    requires IsMin(sums.min, seen) && IsMax(sums.max, seen)
    ensures r.num == sums.num + Amount(w, p, q) && r.denom == sums.denom + Cover(w, p, q)
    ensures IsMin(r.min, seen + SegmentMarks(w, p, q)) && IsMax(r.max, seen + SegmentMarks(w, p, q))
  {
    SlopeTimesLength(p, q);
    var d: uint64, before: uint64, len: uint64 := q.asof - w.ts, w.ts - p.asof, q.asof - p.asof;
    var dx := d as real;
    r := sums.(denom := sums.denom + dx);
    var iy := Interpolate(p, q, before, len);
    if w.kind == Absolute {
      var area := dx * (q.value + iy) / 2.0;
      assert area == Amount(w, p, q) by { EntersStep(w, p, q, iy); }
      ExtremesGrow(sums.min, sums.max, seen, iy);
      assert SegmentMarks(w, p, q) == {iy};
      r := r.(num := sums.num + area,
              min := LowerOf(sums.min, Num(iy)), max := HigherOf(sums.max, Num(iy)));
    } else if q.value >= iy {
      assert !Falling(p, q) && q.value - iy == Amount(w, p, q) by { EntersStep(w, p, q, iy); }
      ExtremesGrow(sums.min, sums.max, seen, Slope(p, q));
      r := r.(num := sums.num + (q.value - iy),
              min := LowerOf(sums.min, rawRate), max := HigherOf(sums.max, rawRate));
    } else {
      assert Falling(p, q) by { EntersStep(w, p, q, iy); }
      assert seen + SegmentMarks(w, p, q) == seen;
    }
  }

  // p is inside and q is beyond the step.
  method AddLeaving(w: Window, p: RawPoint, q: RawPoint, rawRate: Float, sums: Sums, ghost seen: set<real>)
    returns (r: Sums)
    requires 0 <= w.ts < w.te < 0x1_0000_0000_0000_0000
    requires Overlaps(w, p, q) && w.ts <= p.asof && w.te < q.asof
    requires rawRate == RawRate(w, p, q)
    requires IsMin(sums.min, seen) && IsMax(sums.max, seen)
    ensures r.num == sums.num + Amount(w, p, q) && r.denom == sums.denom + Cover(w, p, q)
    ensures IsMin(r.min, seen + SegmentMarks(w, p, q)) && IsMax(r.max, seen + SegmentMarks(w, p, q))
  {
    SlopeTimesLength(p, q);
    var d: uint64, len: uint64 := w.te - p.asof, q.asof - p.asof;
    var dx := d as real;
    r := sums.(denom := sums.denom + dx);
    var iy := Interpolate(p, q, d, len);
    if w.kind == Absolute {
      var area := dx * (p.value + iy) / 2.0;
      assert area == Amount(w, p, q) by { LeavesStep(w, p, q, iy); }
      ExtremesGrow(sums.min, sums.max, seen, iy);
      assert SegmentMarks(w, p, q) == {iy};
      r := r.(num := sums.num + area,
              min := LowerOf(sums.min, Num(iy)), max := HigherOf(sums.max, Num(iy)));
    } else if iy >= p.value {
      assert !Falling(p, q) && iy - p.value == Amount(w, p, q) by { LeavesStep(w, p, q, iy); }
      ExtremesGrow(sums.min, sums.max, seen, Slope(p, q));
      r := r.(num := sums.num + (iy - p.value),
              min := LowerOf(sums.min, rawRate), max := HigherOf(sums.max, rawRate));
    } else {
      assert Falling(p, q) by { LeavesStep(w, p, q, iy); }
      assert seen + SegmentMarks(w, p, q) == seen;
    }
  }

  method AddTwoCuts(sums: Sums, iy1: real, iy2: real, ghost seen: set<real>) returns (r: Sums)
    requires IsMin(sums.min, seen) && IsMax(sums.max, seen)
    ensures r.num == sums.num && r.denom == sums.denom
    ensures IsMin(r.min, seen + {iy1, iy2}) && IsMax(r.max, seen + {iy1, iy2})
  {
    ExtremesGrow(sums.min, sums.max, seen, iy1);
    r := sums.(min := LowerOf(sums.min, Num(iy1)), max := HigherOf(sums.max, Num(iy1)));
    ExtremesGrow(r.min, r.max, seen + {iy1}, iy2);
    assert seen + {iy1, iy2} == seen + {iy1} + {iy2};
    r := r.(min := LowerOf(r.min, Num(iy2)), max := HigherOf(r.max, Num(iy2)));
  }

  // p is before and q is beyond the step.
  method AddSpanning(w: Window, p: RawPoint, q: RawPoint, rawRate: Float, sums: Sums, ghost seen: set<real>)
    returns (r: Sums)
    requires 0 <= w.ts < w.te < 0x1_0000_0000_0000_0000
    requires Overlaps(w, p, q) && Spans(w, p, q)
    requires rawRate == RawRate(w, p, q)
    requires IsMin(sums.min, seen) && IsMax(sums.max, seen)
    ensures if Unscaled(w, p, q)
            then r.num == q.value - p.value && r.denom == (q.asof - p.asof) as real
            else r.num == sums.num + Amount(w, p, q) && r.denom == sums.denom + Cover(w, p, q)
    ensures IsMin(r.min, seen + SegmentMarks(w, p, q)) && IsMax(r.max, seen + SegmentMarks(w, p, q))
  {
    r := sums;
    if w.kind == Absolute {
      var d: uint64, before: uint64, until: uint64, len: uint64 :=
        w.te - w.ts, w.ts - p.asof, w.te - p.asof, q.asof - p.asof;
      var dx := d as real;
      var iy1 := Interpolate(p, q, before, len);
      var iy2 := Interpolate(p, q, until, len);
      var area := dx * (iy1 + iy2) / 2.0;
      assert area == Amount(w, p, q) by { SpansStep(w, p, q, iy1, iy2); }
      r := AddTwoCuts(sums.(num := sums.num + area, denom := sums.denom + dx), iy1, iy2, seen);
      assert SegmentMarks(w, p, q) == {iy1, iy2};
    } else if q.value >= p.value {
      SlopeTimesLength(p, q);
      ExtremesGrow(sums.min, sums.max, seen, Slope(p, q));
      var len: uint64 := q.asof - p.asof;
      r := Sums(q.value - p.value, len as real, LowerOf(sums.min, rawRate), HigherOf(sums.max, rawRate));
    } else {
      assert seen + SegmentMarks(w, p, q) == seen;
    }
  }

  /** The case split on where a segment lies relative to the step [ts, te].  Reports whether the case
      meant to be impossible was taken. */
  method AddSegment(w: Window, p: RawPoint, q: RawPoint, sums: Sums, ghost seen: set<real>)
    returns (r: Sums, internalError: bool)
    requires 0 <= w.ts < w.te < 0x1_0000_0000_0000_0000 && w.te - w.ts <= w.maxFill
    requires p.asof <= w.te && w.ts <= q.asof && p.asof <= q.asof
    requires IsMin(sums.min, seen) && IsMax(sums.max, seen)
    ensures !internalError
    ensures if Unscaled(w, p, q)
            then r.num == q.value - p.value && r.denom == (q.asof - p.asof) as real
            else r.num == sums.num + Amount(w, p, q) && r.denom == sums.denom + Cover(w, p, q)
    ensures IsMin(r.min, seen + SegmentMarks(w, p, q)) && IsMax(r.max, seen + SegmentMarks(w, p, q))
  {
    var ts, te, tx, tx1 := w.ts, w.te, p.asof, q.asof;
    r, internalError := sums, false;
    var rawRate := Num(0.0);
    if tx1 > tx && w.kind == Rate {
      var len: uint64 := tx1 - tx;
      rawRate := Num((q.value - p.value) / len as real);
      if rawRate.v < 0.0 {
        rawRate := NaN;
      }
    }
    assert seen + {} == seen;
    if tx1 == ts {
    } else if tx == te {
    } else if tx == tx1 {
    } else if tx >= ts && tx1 <= te {
      r := AddInside(w, p, q, rawRate, sums, seen);
    } else if tx1 - tx > w.maxFill {
    } else if tx < ts && tx1 <= te {
      r := AddEntering(w, p, q, rawRate, sums, seen);
    } else if tx >= ts && tx1 > te {
      r := AddLeaving(w, p, q, rawRate, sums, seen);
    } else if tx < ts && tx1 > te {
      r := AddSpanning(w, p, q, rawRate, sums, seen);
    } else {
      internalError := true;
    }
  }

  // ----- One step -----

  /** raw[i] is the last sample before the step and raw[j] the last one not after it. */
  predicate Brackets(w: Window, raw: seq<RawPoint>, i: int, j: int) {
    && -1 <= i <= j < |raw|
    && (forall k :: 0 <= k <= i ==> raw[k].asof < w.ts)
    && (forall k :: i < k <= j ==> w.ts <= raw[k].asof <= w.te)
    && (forall k :: j < k < |raw| ==> w.te < raw[k].asof)
  }

  /** The sums stand for the average asked for. */
  predicate MeanIs(sums: Sums, amount: real, cover: real) {
    && (sums.denom > 0.0 <==> cover > 0.0)
    && (cover > 0.0 ==> sums.num / sums.denom == amount / cover)
  }

  lemma UnscaledMean(w: Window, p: RawPoint, q: RawPoint)
    requires Unscaled(w, p, q)
    ensures Cover(w, p, q) > 0.0
    ensures (q.value - p.value) / (q.asof - p.asof) as real == Amount(w, p, q) / Cover(w, p, q)
  {
    var s, d := Slope(p, q), (w.te - w.ts) as real;
    assert d == w.te as real - w.ts as real;
    assert Amount(w, p, q) == s * d && Cover(w, p, q) == d;
    assert s * d / d == s;
  }

  /** The sums once the first n samples, with the segments after them, have been taken in: exact, or those
      of a single unscaled counter segment, which is then the only one that matters. */
  ghost predicate Progress(w: Window, raw: seq<RawPoint>, i: int, j: int, n: nat, sums: Sums)
    requires n <= |raw|
  {
    && IsMin(sums.min, MarksUpTo(w, raw, n))
    && IsMax(sums.max, MarksUpTo(w, raw, n))
    && (|| SumsExact(w, raw, n, sums)
        || (&& 0 <= i == j && n == j + 1 < |raw| && Unscaled(w, raw[i], raw[i+1])
            && sums.num == raw[i+1].value - raw[i].value
            && sums.denom == (raw[i+1].asof - raw[i].asof) as real))
  }

  predicate SumsExact(w: Window, raw: seq<RawPoint>, n: nat, sums: Sums) {
    var m := Earlier(n, Segments(raw));
    sums.num == AmountUpTo(w, raw, m) && sums.denom == CoverUpTo(w, raw, m)
  }

  lemma ProgressStarts(w: Window, raw: seq<RawPoint>, i: int, j: int)
    requires Brackets(w, raw, i, j)
    ensures Progress(w, raw, i, j, Later(i, 0), Sums(0.0, 0.0, NaN, NaN))
  {
    NothingBefore(w, raw, Later(i, 0));
  }

  lemma ProgressEnds(w: Window, raw: seq<RawPoint>, i: int, j: int, sums: Sums)
    requires Brackets(w, raw, i, j) && Progress(w, raw, i, j, j + 1, sums)
    ensures MeanIs(sums, TotalAmount(w, raw), TotalCover(w, raw))
    ensures IsMin(sums.min, Marks(w, raw)) && IsMax(sums.max, Marks(w, raw))
  {
    var n := j + 1;
    NoMarksAfter(w, raw, n, |raw|);
    if n < Segments(raw) {
      NothingAfter(w, raw, n, Segments(raw));
    }
    if !SumsExact(w, raw, n, sums) {
      NothingBefore(w, raw, i);
      UnscaledMean(w, raw[i], raw[i+1]);
    }
  }

  /** Take in sample x alone. */
  method AddSample(w: Window, raw: seq<RawPoint>, x: nat, sums: Sums) returns (r: Sums, ghost seen: set<real>)
    requires x < |raw|
    requires IsMin(sums.min, MarksUpTo(w, raw, x)) && IsMax(sums.max, MarksUpTo(w, raw, x))
    ensures r.num == sums.num && r.denom == sums.denom
    ensures seen == MarksUpTo(w, raw, x) +
                    (if w.kind.Absolute? && w.ts <= raw[x].asof <= w.te then {raw[x].value} else {})
    ensures IsMin(r.min, seen) && IsMax(r.max, seen)
  {
    seen := MarksUpTo(w, raw, x);
    r := sums;
    var p := raw[x];
    if w.kind == Absolute && p.asof >= w.ts && p.asof <= w.te {
      ExtremesGrow(sums.min, sums.max, seen, p.value);
      seen := seen + {p.value};
      r := r.(min := LowerOf(sums.min, Num(p.value)), max := HigherOf(sums.max, Num(p.value)));
    }
  }

  /** Take in sample x and the segment after it. */
  method AddPoint(w: Window, raw: seq<RawPoint>, ghost i: int, ghost j: int, x: nat, sums: Sums)
    returns (r: Sums, internalError: bool)
    requires 0 <= w.ts < w.te < 0x1_0000_0000_0000_0000 && w.te - w.ts <= w.maxFill
    requires Sorted(raw) && Brackets(w, raw, i, j) && i <= x <= j
    requires Progress(w, raw, i, j, x, sums)
    ensures !internalError
    ensures Progress(w, raw, i, j, x + 1, r)
  {
    hide IsMin, IsMax, Slope;
    var p := raw[x];
    ghost var seen;
    r, seen := AddSample(w, raw, x, sums);
    internalError := false;
    if x + 1 < |raw| {
      assert seen + SegmentMarks(w, p, raw[x+1]) == MarksUpTo(w, raw, x + 1);
      r, internalError := AddSegment(w, p, raw[x+1], r, seen);
    } else {
      assert seen == MarksUpTo(w, raw, x + 1);
    }
  }

  method Aggregate(w: Window, raw: seq<RawPoint>, i: int, j: int) returns (sums: Sums, internalError: bool)
    requires Sorted(raw) && Brackets(w, raw, i, j)
    requires 0 <= w.ts < w.te < 0x1_0000_0000_0000_0000 && w.te - w.ts <= w.maxFill
    ensures !internalError
    ensures MeanIs(sums, TotalAmount(w, raw), TotalCover(w, raw))
    ensures IsMin(sums.min, Marks(w, raw)) && IsMax(sums.max, Marks(w, raw))
  {
    sums, internalError := Sums(0.0, 0.0, NaN, NaN), false;
    ProgressStarts(w, raw, i, j);
    var x := i;
    while x <= j
      invariant i <= x <= j + 1 && !internalError
      invariant Progress(w, raw, i, j, Later(x, 0), sums)
    {
      if x >= 0 {
        sums, internalError := AddPoint(w, raw, i, j, x, sums);
      }
      x := x + 1;
    }
    ProgressEnds(w, raw, i, j, sums);
  }

  // ----- The cursors -----

  /** Make i the last point before ts: the carried cursor ends where a fresh search would. */
  method AdvanceCursor(raw: seq<RawPoint>, i0: int, ts: uint64) returns (i: int)
    requires Sorted(raw)
    requires -1 <= i0 < |raw| && forall k :: 0 <= k <= i0 ==> raw[k].asof < ts
    ensures i0 <= i < |raw| && i + 1 == FirstFrom(raw, ts)
  {
    i := i0;
    while i + 1 < |raw| && raw[i+1].asof < ts
      invariant i0 <= i < |raw|
      invariant forall k :: 0 <= k <= i ==> raw[k].asof < ts
    {
      i := i + 1;
    }
    FirstFromIs(raw, ts, i + 1);
  }

  /** Find the last point before or equal to te. */
  method FindLast(raw: seq<RawPoint>, i: int, te: uint64) returns (j: int)
    requires Sorted(raw) && -1 <= i < |raw|
    ensures i <= j < |raw|
    ensures forall k :: i < k <= j ==> raw[k].asof <= te
    ensures forall k :: j < k < |raw| ==> te < raw[k].asof
  {
    j := i;
    while j + 1 < |raw| && raw[j+1].asof <= te
      invariant i <= j < |raw|
      invariant forall k :: i < k <= j ==> raw[k].asof <= te
    {
      j := j + 1;
    }
  }

  // ----- The main loop -----

  function StepWindow(kind: Kind, start: int, step: int, maxFill: int, r: int): Window {
    Window(kind, start + r * step, start + r * step + step, maxFill)
  }

  /** Every point of res is the right output for its step. */
  ghost predicate AllSteps(raw: seq<RawPoint>, kind: Kind, start: int, step: int, maxFill: int, res: seq<IntPoint>) {
    forall r :: 0 <= r < |res| ==> IsStep(StepWindow(kind, start, step, maxFill, r), raw, res[r])
  }

  /** Every point of res but the first is. */
  ghost predicate LaterSteps(raw: seq<RawPoint>, kind: Kind, start: int, step: int, maxFill: int, res: seq<IntPoint>) {
    forall r :: 1 <= r < |res| ==> IsStep(StepWindow(kind, start, step, maxFill, r), raw, res[r])
  }

  /** The output of one step, given its cursors. */
  method StepPoint(w: Window, raw: seq<RawPoint>, i: int, j: int) returns (p: IntPoint, internalError: bool)
    requires Sorted(raw) && Brackets(w, raw, i, j)
    requires 0 <= w.ts < w.te < 0x1_0000_0000_0000_0000 && w.te - w.ts <= w.maxFill
    ensures !internalError && IsStep(w, raw, p)
  {
    var sums;
    sums, internalError := Aggregate(w, raw, i, j);
    FirstFromIs(raw, w.ts, i + 1);
    if sums.denom > 0.0 {
      p := IntPoint(w.ts, Num(sums.num / sums.denom), sums.min, sums.max);
    } else if w.kind == Absolute && i + 1 < |raw| && raw[i+1].asof >= w.ts && raw[i+1].asof < w.te {
      var v := Num(raw[i+1].value);
      p := IntPoint(w.ts, v, v, v);
    } else {
      p := IntPoint(w.ts, NaN, NaN, NaN);
    }
  }

  /** The aggregation loop, on whatever array it is given. */
  method Resample(raw: seq<RawPoint>, kind: Kind, start: uint64, end: uint64, step: uint64, maxFill: uint64, count: nat)
    returns (res: seq<IntPoint>, internalError: bool)
    requires Sorted(raw) && 0 < step <= maxFill && 0 < count && end == start + count * step
    ensures !internalError
    ensures |res| == count && AllSteps(raw, kind, start, step, maxFill, res)
  {
    hide IsStep, IsPoint;
    var a := new IntPoint[count](_ => IntPoint(0, NaN, NaN, NaN));
    var i, r, ts: uint64 := -1, 0, start;
    internalError := false;
    while ts < end
      invariant 0 <= r <= count && ts == start + r * step && !internalError
      invariant -1 <= i < |raw| && forall k :: 0 <= k <= i ==> raw[k].asof < ts
      invariant AllSteps(raw, kind, start, step, maxFill, a[..r])
      decreases end - ts
    {
      StepFits(r, count, step);
      Times(r, 1, step);
      var te: uint64 := ts + step;
      i := AdvanceCursor(raw, i, ts);
      var j := FindLast(raw, i, te);
      var w := StepWindow(kind, start, step, maxFill, r);
      var p;
      p, internalError := StepPoint(w, raw, i, j);
      a[r] := p;
      assert a[..r+1] == a[..r] + [p];
      r, ts := r + 1, te;
    }
    StepFits(r, count, step);
    return a[..], internalError;
  }

  lemma StepFits(r: int, count: int, step: int)
    requires step > 0
    ensures r < count ==> r * step + step <= count * step
    ensures r >= count ==> r * step >= count * step
  {
    Times(r, count - r, step);
    AtLeast(count - r - 1, step);
    Times(count - r - 1, 1, step);
    AtLeast(r - count, step);
    Times(count, r - count, step);
  }

  lemma Times(a: int, b: int, step: int)
    ensures (a + b) * step == a * step + b * step
  {
  }

  // ----- The resampler -----

  /** The arguments are accepted and the main loop is reached. */
  predicate Accepted(raw: seq<RawPoint>, start: int, end: int, step: int, maxFill: int) {
    start < end && 2 <= step <= maxFill && Sorted(raw) && StepCount(start, end, step) <= MAX_POINTS
  }

  /** Required is that the end, pushed out so that steps divide the range, plus one step fits 64 bits. */
  method Raw(raw: seq<RawPoint>, kind: Kind, start: uint64, end: uint64, step: uint64, maxFill: uint64)
    returns (r: Result<seq<IntPoint>, Error>)
    requires Accepted(raw, start, end, step, maxFill) ==>
               start + ((end - 1 - start) / step + 1) * step + step < 0x1_0000_0000_0000_0000
    ensures r.Ok? <==> Accepted(raw, start, end, step, maxFill)
    ensures r == Err(EndNotAfterStart) <==> end <= start
    ensures r == Err(StepTooSmall) <==> start < end && step < 2
    ensures r == Err(MaxFillTooSmall) <==> start < end && 2 <= step && maxFill < step
    ensures r == Err(NotSorted) <==>
              start < end && 2 <= step <= maxFill && exists i, j :: 0 <= i < j < |raw| && raw[j].asof < raw[i].asof
    ensures r == Err(TooManyPoints) <==>
              start < end && 2 <= step <= maxFill && Sorted(raw) && (end - 1 - start) / step + 1 > 1000000
    ensures r != Err(InternalError)
    ensures r.Ok? ==>
              && (|r.value| - 1) * step < end - start <= |r.value| * step
              && (forall k :: 0 <= k < |r.value| ==> r.value[k].asof == start + k * step)
              && AllSteps(raw[Dropped(raw, start)..], kind, start, step, maxFill, r.value)
              && LaterSteps(raw, kind, start, step, maxFill, r.value)
              && (TrimSafe(raw, kind, start) ==> AllSteps(raw, kind, start, step, maxFill, r.value))
              && forall k :: 0 <= k < |r.value| ==>
                   var w := Window(kind, start + k * step, start + k * step + step, maxFill);
                   && IsStep(w, raw[Dropped(raw, start)..], r.value[k])
                   && (k > 0 || TrimSafe(raw, kind, start) ==> IsStep(w, raw, r.value[k]))
  {
    if end <= start {
      return Err(EndNotAfterStart);
    }
    if step < 2 {
      return Err(StepTooSmall);
    }
    if maxFill < step {
      return Err(MaxFillTooSmall);
    }
    var sorted := CheckSorted(raw);
    if !sorted {
      return Err(NotSorted);
    }
    hide IsStep, AllSteps, LaterSteps, TrimSafe, Dropped;
    var adjusted := AdjustEnd(start, end, step);
    if adjusted.Err? {
      return Err(adjusted.error);
    }
    var (count, newEnd) := adjusted.value;
    RoundedUp(end - start, step);
    Times(count - 1, 1, step);
    var res, internalError := TrimAndResample(raw, kind, start, newEnd, step, maxFill, count);
    if internalError {
      return Err(InternalError);
    }
    OneByOne(raw, kind, start, step, maxFill, res);
    return Ok(res);
  }

  /** What is left to do once the arguments are accepted. */
  method TrimAndResample(raw: seq<RawPoint>, kind: Kind, start: uint64, newEnd: uint64, step: uint64, maxFill: uint64,
                         count: nat)
    returns (res: seq<IntPoint>, internalError: bool)
    requires Sorted(raw) && 0 < step <= maxFill && 0 < count
    requires newEnd == start + count * step && newEnd + step < WRAP
    ensures !internalError && |res| == count
    ensures forall k :: 0 <= k < |res| ==> res[k].asof == start + k * step
    ensures AllSteps(raw[Dropped(raw, start)..], kind, start, step, maxFill, res)
    ensures LaterSteps(raw, kind, start, step, maxFill, res)
    ensures TrimSafe(raw, kind, start) ==> AllSteps(raw, kind, start, step, maxFill, res)
  {
    internalError := false;
    var kept := LTrim(raw, start);
    var trimmed := RTrim(kept, newEnd, step);
    hide IsStep, AllSteps, LaterSteps, TrimSafe, Dropped;
    if |trimmed| == 0 {
      res := MakeNaNs(start, step, count);
      NothingToSee(kind, start, step, maxFill, res);
    } else {
      res, internalError := Resample(trimmed, kind, start, newEnd, step, maxFill, count);
    }
    UntrimAll(raw, kept, trimmed, kind, start, step, maxFill, count, res);
  }

  /** Without samples nothing is a number. */
  lemma NothingToSee(kind: Kind, start: int, step: int, maxFill: int, res: seq<IntPoint>)
    requires forall k :: 0 <= k < |res| ==> res[k].asof == start + k * step
    requires forall k :: 0 <= k < |res| ==> res[k].avg == NaN && res[k].min == NaN && res[k].max == NaN
    ensures AllSteps([], kind, start, step, maxFill, res)
  {
    forall k | 0 <= k < |res| ensures IsStep(StepWindow(kind, start, step, maxFill, k), [], res[k]) {
      assert res[k].asof == start + k * step;
    }
  }

  lemma OneByOne(raw: seq<RawPoint>, kind: Kind, start: int, step: int, maxFill: int, res: seq<IntPoint>)
    requires Sorted(raw) && LaterSteps(raw, kind, start, step, maxFill, res)
    requires AllSteps(raw[Dropped(raw, start)..], kind, start, step, maxFill, res)
    requires TrimSafe(raw, kind, start) ==> AllSteps(raw, kind, start, step, maxFill, res)
    ensures forall k :: 0 <= k < |res| ==>
              var w := Window(kind, start + k * step, start + k * step + step, maxFill);
              && IsStep(w, raw[Dropped(raw, start)..], res[k])
              && (k > 0 || TrimSafe(raw, kind, start) ==> IsStep(w, raw, res[k]))
  {
    hide IsStep, TrimSafe;
    forall k | 0 <= k < |res|
      ensures var w := Window(kind, start + k * step, start + k * step + step, maxFill);
              && IsStep(w, raw[Dropped(raw, start)..], res[k])
              && (k > 0 || TrimSafe(raw, kind, start) ==> IsStep(w, raw, res[k]))
    {
      assert StepWindow(kind, start, step, maxFill, k)
          == Window(kind, start + k * step, start + k * step + step, maxFill);
    }
  }

  method CheckSorted(raw: seq<RawPoint>) returns (ok: bool)
    ensures ok == Sorted(raw)
  {
    var i := 0;
    while i < |raw| - 1
      invariant 0 <= i <= |raw|
      invariant forall k, l :: 0 <= k < l <= i && l < |raw| ==> raw[k].asof <= raw[l].asof
    {
      if raw[i].asof > raw[i+1].asof {
        return false;
      }
      i := i + 1;
    }
    return true;
  }

  /** What is right on the trimmed array is right on the whole one. */
  lemma UntrimAll(raw: seq<RawPoint>, kept: seq<RawPoint>, trimmed: seq<RawPoint>,
                  kind: Kind, start: int, step: int, maxFill: int, count: nat, res: seq<IntPoint>)
    requires Sorted(raw) && 0 < step && |res| == count
    requires kept == raw[Dropped(raw, start)..] && trimmed <= kept
    requires trimmed != kept ==> trimmed != [] && trimmed[|trimmed|-1].asof >= start + count * step + step
    requires AllSteps(trimmed, kind, start, step, maxFill, res)
    ensures AllSteps(kept, kind, start, step, maxFill, res)
    ensures forall k :: 0 <= k < count ==> res[k].asof == start + k * step
    ensures LaterSteps(raw, kind, start, step, maxFill, res)
    ensures TrimSafe(raw, kind, start) ==> AllSteps(raw, kind, start, step, maxFill, res)
  {
    forall r | 0 <= r < count
      ensures IsStep(StepWindow(kind, start, step, maxFill, r), kept, res[r]) && res[r].asof == start + r * step
      ensures r > 0 || TrimSafe(raw, kind, start) ==> IsStep(StepWindow(kind, start, step, maxFill, r), raw, res[r])
    {
      assert res[r].asof == start + r * step by { hide TotalAmount, TotalCover, Marks, FirstWithin; }
      hide IsPoint, Alike, TotalAmount, TotalCover, Marks, FirstWithin, TrimSafe;
      var w := StepWindow(kind, start, step, maxFill, r);
      StepFits(r, count, step);
      AtLeast(r, step);
      RightTrimInvisible(w, kept, trimmed, start + count * step + step);
      assert r == 0 ==> w.ts == start;
      if r > 0 || TrimSafe(raw, kind, start) {
        LeftTrimInvisible(w, raw, start);
      }
    }
  }
}
