/** Facts about one segment of the curve: trapezoids, interpolation, monotonicity, bounds. */
module Curve {
  import opened TimeSeries

  // ----- Small facts of real arithmetic -----

  lemma Quotient(a: real, b: real)
    requires b > 0.0
    ensures a / b * b == a
    ensures a < 0.0 <==> a / b < 0.0
  {
  }

  lemma ScaleBounds(lo: real, s: real, hi: real, c: real)
    requires lo <= s <= hi && c >= 0.0
    ensures lo * c <= s * c <= hi * c
  {
  }

  lemma ScaleSign(s: real, c: real)
    requires c >= 0.0
    ensures s < 0.0 ==> s * c <= 0.0
    ensures s >= 0.0 ==> s * c >= 0.0
    ensures c > 0.0 ==> (s < 0.0 <==> s * c < 0.0)
  {
  }

  lemma ScaleDifference(s: real, a: real, b: real)
    ensures s * b - s * a == s * (b - a)
  {
  }

  // ----- The line through two samples -----

  lemma SlopeTimes(p: RawPoint, q: RawPoint)
    requires p.asof < q.asof
    ensures Slope(p, q) * (q.asof as real - p.asof as real) == q.value - p.value
    ensures Falling(p, q) <==> Slope(p, q) < 0.0
  {
    Quotient(q.value - p.value, (q.asof - p.asof) as real);
    assert (q.asof - p.asof) as real == q.asof as real - p.asof as real;
  }

  lemma Unfold(p: RawPoint, q: RawPoint, t: real)
    requires p.asof < q.asof
    ensures LineAt(p, q, t) == p.value + Slope(p, q) * (t - p.asof as real)
  {
    hide Slope;
  }

  /** The line passes through its samples. */
  lemma LineEnds(p: RawPoint, q: RawPoint)
    requires p.asof < q.asof
    ensures LineAt(p, q, p.asof as real) == p.value
    ensures LineAt(p, q, q.asof as real) == q.value
  {
    var s, x, y := Slope(p, q), p.asof as real, q.asof as real;
    SlopeTimes(p, q);
    Unfold(p, q, x);
    Unfold(p, q, y);
    hide Slope, LineAt;
    assert x - x == 0.0 && s * 0.0 == 0.0;
  }

  lemma SlopeTimesLength(p: RawPoint, q: RawPoint)
    requires p.asof < q.asof
    ensures Slope(p, q) * (q.asof as real - p.asof as real) == q.value - p.value
    ensures Falling(p, q) <==> Slope(p, q) < 0.0
    ensures LineAt(p, q, p.asof as real) == p.value
    ensures LineAt(p, q, q.asof as real) == q.value
  {
    SlopeTimes(p, q);
    LineEnds(p, q);
  }

  /** Interpolating by a ratio, as the resampler does, gives a point of the line. */
  lemma RatioIsOnLine(p: RawPoint, q: RawPoint, t: int)
    requires p.asof < q.asof
    ensures p.value + ((t - p.asof) as real / (q.asof - p.asof) as real) * (q.value - p.value)
         == LineAt(p, q, t as real)
  {
    var d, x, dv := (q.asof - p.asof) as real, (t - p.asof) as real, q.value - p.value;
    assert x / d * dv == dv / d * x;
    assert x == t as real - p.asof as real;
    Unfold(p, q, t as real);
  }

  /** Over a stretch the line rises by the slope times its length, up or down as its ends show. */
  lemma RiseOverStretch(p: RawPoint, q: RawPoint, a: real, b: real)
    requires p.asof < q.asof && a <= b
    ensures LineAt(p, q, b) - LineAt(p, q, a) == Slope(p, q) * (b - a)
    ensures Falling(p, q) ==> LineAt(p, q, b) <= LineAt(p, q, a)
    ensures !Falling(p, q) ==> Slope(p, q) >= 0.0 && LineAt(p, q, a) <= LineAt(p, q, b)
    ensures a < b ==> (Falling(p, q) <==> LineAt(p, q, b) < LineAt(p, q, a))
  {
    SlopeTimes(p, q);
    Unfold(p, q, a);
    Unfold(p, q, b);
    hide Slope, LineAt;
    var s, x := Slope(p, q), p.asof as real;
    ScaleDifference(s, a - x, b - x);
    ScaleSign(s, b - a);
  }

  /** The trapezoid rule is exact on a line. */
  lemma TrapezoidIsIntegral(p: RawPoint, q: RawPoint, lo: real, hi: real)
    requires p.asof < q.asof
    ensures Primitive(p, q, hi) - Primitive(p, q, lo)
         == (hi - lo) * (LineAt(p, q, lo) + LineAt(p, q, hi)) / 2.0
  {
    Unfold(p, q, lo);
    Unfold(p, q, hi);
    hide Slope, LineAt;
    Trapezoid(p.value, Slope(p, q), lo - p.asof as real, hi - p.asof as real);
    assert hi - lo == (hi - p.asof as real) - (lo - p.asof as real);
  }

  lemma Trapezoid(v: real, s: real, x: real, y: real)
    ensures (v * y + s * y * y / 2.0) - (v * x + s * x * x / 2.0)
         == (y - x) * ((v + s * x) + (v + s * y)) / 2.0
  {
    assert (y - x) * (s * x + s * y) == s * ((y - x) * (x + y));
    assert (y - x) * (x + y) == y * y - x * x;
    assert s * (y * y - x * x) == s * y * y - s * x * x;
  }

  /** The mean over a stretch lies between its end heights. */
  lemma MeanWithinEnds(p: RawPoint, q: RawPoint, lo: real, hi: real, m: real, n: real)
    requires p.asof < q.asof && lo <= hi
    requires m <= LineAt(p, q, lo) <= n && m <= LineAt(p, q, hi) <= n
    ensures m * (hi - lo) <= Primitive(p, q, hi) - Primitive(p, q, lo) <= n * (hi - lo)
  {
    TrapezoidIsIntegral(p, q, lo, hi);
    hide LineAt, Primitive, Slope;
    var h := (LineAt(p, q, lo) + LineAt(p, q, hi)) / 2.0;
    assert (hi - lo) * (LineAt(p, q, lo) + LineAt(p, q, hi)) / 2.0 == h * (hi - lo);
    ScaleBounds(m, h, n, hi - lo);
  }
}
