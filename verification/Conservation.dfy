/** Nothing is lost or counted twice where a segment crosses from one step into the next. */
module Conservation {
  import opened TimeSeries
  import opened Curve
  import opened Interpol8

  /** Whose coverage adds up: gauges always, counters as long as they never fall. */
  ghost predicate Conserving(kind: Kind, raw: seq<RawPoint>) { kind.Absolute? || NonFalling(raw) }

  lemma SegmentAdds(kind: Kind, maxFill: int, a: int, b: int, c: int, p: RawPoint, q: RawPoint)
    requires a <= b <= c
    ensures var ab, bc, ac := Window(kind, a, b, maxFill), Window(kind, b, c, maxFill), Window(kind, a, c, maxFill);
            && Amount(ac, p, q) == Amount(ab, p, q) + Amount(bc, p, q)
            && (kind.Absolute? || !Falling(p, q) ==> Cover(ac, p, q) == Cover(ab, p, q) + Cover(bc, p, q))
  {
    var ac := Window(kind, a, c, maxFill);
    if Joined(ac, p, q) && (kind.Absolute? || !Falling(p, q)) {
      SegmentPart(Window(kind, a, b, maxFill), p, q);
      SegmentPart(Window(kind, b, c, maxFill), p, q);
      SegmentPart(ac, p, q);
    }
  }

  /** The accumulated amount up to time t. */
  function Accumulated(kind: Kind, p: RawPoint, q: RawPoint, t: int): real
    requires p.asof < q.asof
  {
    var x := Later(p.asof, Earlier(q.asof, t)) as real;
    if kind.Absolute? then Primitive(p, q, x) else Slope(p, q) * x
  }

  lemma SegmentPart(w: Window, p: RawPoint, q: RawPoint)
    requires Joined(w, p, q) && w.ts <= w.te && (w.kind.Absolute? || !Falling(p, q))
    ensures Amount(w, p, q) == Accumulated(w.kind, p, q, w.te) - Accumulated(w.kind, p, q, w.ts)
    ensures Cover(w, p, q) ==
            (Later(p.asof, Earlier(q.asof, w.te)) - Later(p.asof, Earlier(q.asof, w.ts))) as real
  {
    var lo, hi := Later(p.asof, Earlier(q.asof, w.ts)), Later(p.asof, Earlier(q.asof, w.te));
    if Overlaps(w, p, q) {
      assert Later(p.asof, w.ts) == lo && Earlier(q.asof, w.te) == hi;
      var s, x, y := Slope(p, q), lo as real, hi as real;
      assert s * (y - x) == s * y - s * x;
    } else {
      assert lo == hi;
    }
  }

  lemma {:induction false} ArrayAdds(raw: seq<RawPoint>, kind: Kind, maxFill: int, a: int, b: int, c: int, n: nat)
    requires a <= b <= c && n <= Segments(raw)
    ensures var ab, bc, ac := Window(kind, a, b, maxFill), Window(kind, b, c, maxFill), Window(kind, a, c, maxFill);
            && AmountUpTo(ac, raw, n) == AmountUpTo(ab, raw, n) + AmountUpTo(bc, raw, n)
            && (Conserving(kind, raw) ==> CoverUpTo(ac, raw, n) == CoverUpTo(ab, raw, n) + CoverUpTo(bc, raw, n))
  {
    if n == 0 {
    } else {
      ArrayAdds(raw, kind, maxFill, a, b, c, n - 1);
      SegmentAdds(kind, maxFill, a, b, c, raw[n-1], raw[n]);
    }
  }

  lemma {:induction false} NothingInNoTime(w: Window, raw: seq<RawPoint>, n: nat)
    requires w.ts == w.te && n <= Segments(raw)
    ensures AmountUpTo(w, raw, n) == 0.0 && CoverUpTo(w, raw, n) == 0.0
  {
    if n == 0 {
    } else {
      NothingInNoTime(w, raw, n - 1);
      assert !Overlaps(w, raw[n-1], raw[n]);
    }
  }

  /** Where nothing is covered there is no amount either. */
  lemma {:induction false} NoCoverNoAmount(w: Window, raw: seq<RawPoint>, n: nat)
    requires n <= Segments(raw)
    ensures CoverUpTo(w, raw, n) >= 0.0
    ensures CoverUpTo(w, raw, n) == 0.0 ==> AmountUpTo(w, raw, n) == 0.0
  {
    if n == 0 {
    } else {
      NoCoverNoAmount(w, raw, n - 1);
    }
  }

  /** An output weighted by the length it covers. */
  function Weighted(w: Window, raw: seq<RawPoint>, p: IntPoint): real {
    if p.avg.Num? then p.avg.v * TotalCover(w, raw) else 0.0
  }

  /** The weighted outputs of the first n steps, added up. */
  function OutputAmount(raw: seq<RawPoint>, kind: Kind, start: int, step: int, maxFill: int,
                        res: seq<IntPoint>, n: nat): real
    requires n <= |res|
  {
    if n == 0 then 0.0
    else OutputAmount(raw, kind, start, step, maxFill, res, n - 1) +
         Weighted(StepWindow(kind, start, step, maxFill, n - 1), raw, res[n-1])
  }

  function OutputCover(raw: seq<RawPoint>, kind: Kind, start: int, step: int, maxFill: int, n: nat): real {
    if n == 0 then 0.0
    else OutputCover(raw, kind, start, step, maxFill, n - 1) +
         TotalCover(StepWindow(kind, start, step, maxFill, n - 1), raw)
  }

  lemma PointCarriesAmount(w: Window, raw: seq<RawPoint>, p: IntPoint)
    requires IsStep(w, raw, p)
    ensures Weighted(w, raw, p) == TotalAmount(w, raw)
  {
    assert TotalCover(w, raw) >= 0.0 && (TotalCover(w, raw) == 0.0 ==> TotalAmount(w, raw) == 0.0) by {
      NoCoverNoAmount(w, raw, Segments(raw));
    }
    hide TotalAmount, TotalCover, Marks, IsMin, IsMax, FirstWithin;
    if TotalCover(w, raw) > 0.0 {
      Quotient(TotalAmount(w, raw), TotalCover(w, raw));
    }
  }

  lemma NextStepAdds(raw: seq<RawPoint>, kind: Kind, start: int, step: int, maxFill: int, n: nat)
    requires step >= 0
    ensures var (before, now, after) := (Window(kind, start, start + n * step, maxFill),
                                         StepWindow(kind, start, step, maxFill, n),
                                         Window(kind, start, start + (n + 1) * step, maxFill));
            && TotalAmount(after, raw) == TotalAmount(before, raw) + TotalAmount(now, raw)
            && (Conserving(kind, raw) ==> TotalCover(after, raw) == TotalCover(before, raw) + TotalCover(now, raw))
  {
    hide AmountUpTo, CoverUpTo, NonFalling;
    var b := start + n * step;
    Times(n, 1, step);
    assert n * step >= 0;
    ArrayAdds(raw, kind, maxFill, start, b, b + step, Segments(raw));
  }

  /** Averages times covered lengths add up to the integral of the curve, or the growth of the counter, clipped to
      the whole range, resets or not; and so do the covered lengths, unless a counter falls. */
  lemma {:induction false} OutputConserves(raw: seq<RawPoint>, kind: Kind, start: int, step: int, maxFill: int,
                                           res: seq<IntPoint>, n: nat)
    requires n <= |res| && step >= 0 && AllSteps(raw, kind, start, step, maxFill, res)
    ensures var whole := Window(kind, start, start + n * step, maxFill);
            && OutputAmount(raw, kind, start, step, maxFill, res, n) == TotalAmount(whole, raw)
            && (kind == Absolute || (forall i, j :: 0 <= i < j < |raw| ==> raw[i].value <= raw[j].value) ==>
                  OutputCover(raw, kind, start, step, maxFill, n) == TotalCover(whole, raw))
  {
    hide IsStep, Weighted, AmountUpTo, CoverUpTo;
    if n == 0 {
      NothingInNoTime(Window(kind, start, start, maxFill), raw, Segments(raw));
    } else {
      hide TotalAmount, TotalCover;
      OutputConserves(raw, kind, start, step, maxFill, res, n - 1);
      PointCarriesAmount(StepWindow(kind, start, step, maxFill, n - 1), raw, res[n-1]);
      NextStepAdds(raw, kind, start, step, maxFill, n - 1);
    }
  }

  /** How much a counter rose over its first n segments; a fall counts as nothing. */
  function Rise(raw: seq<RawPoint>, n: nat): real
    requires n < |raw|
  {
    if n == 0 then 0.0
    else Rise(raw, n - 1) + (if Falling(raw[n-1], raw[n]) then 0.0 else raw[n].value - raw[n-1].value)
  }

  /** A counter that never pauses longer than maxFill and lies within the range: the outputs add up to all it
      rose, which without a reset is its growth. */
  lemma {:induction false} GrowthIsConserved(raw: seq<RawPoint>, start: int, step: int, maxFill: int,
                                             res: seq<IntPoint>)
    requires raw != [] && step >= 0 && forall i, j :: 0 <= i < j < |raw| ==> raw[i].asof < raw[j].asof
    requires forall k :: 0 <= k < |raw| - 1 ==> raw[k+1].asof - raw[k].asof <= maxFill
    requires start <= raw[0].asof && raw[|raw|-1].asof <= start + |res| * step
    requires AllSteps(raw, Rate, start, step, maxFill, res)
    ensures OutputAmount(raw, Rate, start, step, maxFill, res, |res|) == Rise(raw, |raw| - 1)
    ensures (forall i, j :: 0 <= i < j < |raw| ==> raw[i].value <= raw[j].value) ==>
              Rise(raw, |raw| - 1) == raw[|raw|-1].value - raw[0].value
  {
    hide OutputAmount, Rise, AllSteps, AmountUpTo;
    OutputConserves(raw, Rate, start, step, maxFill, res, |res|);
    AmountIsRise(Window(Rate, start, start + |res| * step, maxFill), raw, |raw| - 1);
    if NonFalling(raw) {
      RiseTelescopes(raw, |raw| - 1);
    }
  }

  lemma {:induction false} RiseTelescopes(raw: seq<RawPoint>, n: nat)
    requires NonFalling(raw) && n < |raw|
    ensures Rise(raw, n) == raw[n].value - raw[0].value
  {
    if n == 0 {
    } else {
      RiseTelescopes(raw, n - 1);
    }
  }

  lemma {:induction false} AmountIsRise(w: Window, raw: seq<RawPoint>, n: nat)
    requires StrictlySorted(raw) && n < |raw| && w.kind.Rate?
    requires forall k :: 0 <= k < |raw| - 1 ==> raw[k+1].asof - raw[k].asof <= w.maxFill
    requires w.ts <= raw[0].asof && raw[|raw|-1].asof <= w.te
    ensures AmountUpTo(w, raw, n) == Rise(raw, n)
  {
    if n == 0 {
    } else {
      AmountIsRise(w, raw, n - 1);
      assert raw[0].asof <= raw[n-1].asof < raw[n].asof <= raw[|raw|-1].asof;
      if !Falling(raw[n-1], raw[n]) {
        InsideStep(w, raw[n-1], raw[n]);
      }
    }
  }
}
