/**
 The reference meaning of resampling.

 A sample array stands for the piecewise-linear curve that joins neighbouring samples no further
 than `maxFill` apart.  A `Window` is one output interval [ts, te] together with the kind of data
 and the fill limit.  Every quantity below is defined on the whole array, without a cursor, so it
 says what an output point should be and not how it is found.
 */
module TimeSeries {
  type uint64 = x: int | 0 <= x < 0x1_0000_0000_0000_0000

  datatype RawPoint = RawPoint(asof: uint64, value: real)

  datatype Kind = Absolute | Rate

  /** A float64 without rounding: a number, or not-a-number. */
  datatype Float = NaN | Num(v: real)

  datatype IntPoint = IntPoint(asof: uint64, avg: Float, min: Float, max: Float)

  datatype Window = Window(kind: Kind, ts: int, te: int, maxFill: int)

  predicate Sorted(raw: seq<RawPoint>) {
    forall i, j :: 0 <= i < j < |raw| ==> raw[i].asof <= raw[j].asof
  }

  predicate StrictlySorted(raw: seq<RawPoint>) {
    forall i, j :: 0 <= i < j < |raw| ==> raw[i].asof < raw[j].asof
  }

  predicate NonFalling(raw: seq<RawPoint>) {
    forall i, j :: 0 <= i < j < |raw| ==> raw[i].value <= raw[j].value
  }

  // ----- One segment, from sample p to the next sample q -----

  function Later(a: int, b: int): int { if a < b then b else a }

  function Earlier(a: int, b: int): int { if a < b then a else b }

  function Slope(p: RawPoint, q: RawPoint): real
    requires p.asof < q.asof
  {
    (q.value - p.value) / ((q.asof - p.asof) as real)
  }

  /** The height of the line through p and q at time t. */
  function LineAt(p: RawPoint, q: RawPoint, t: real): real
    requires p.asof < q.asof
  {
    p.value + Slope(p, q) * (t - p.asof as real)
  }

  /** An antiderivative of that line: its integral from p to t. */
  function Primitive(p: RawPoint, q: RawPoint, t: real): real
    requires p.asof < q.asof
  {
    var x := t - p.asof as real;
    p.value * x + Slope(p, q) * x * x / 2.0
  }

  /** The two samples are close enough to be joined. */
  predicate Joined(w: Window, p: RawPoint, q: RawPoint) {
    p.asof < q.asof && q.asof - p.asof <= w.maxFill
  }

  /** The joined segment shares a stretch of positive length with the window. */
  predicate Overlaps(w: Window, p: RawPoint, q: RawPoint) {
    Joined(w, p, q) && Later(p.asof, w.ts) < Earlier(q.asof, w.te)
  }

  predicate Falling(p: RawPoint, q: RawPoint) { q.value < p.value }

  /** The segment starts before the window and ends after it. */
  predicate Spans(w: Window, p: RawPoint, q: RawPoint) {
    p.asof < w.ts && w.te < q.asof
  }

  /** The integral (gauge) or the growth (counter) over the shared stretch.  A falling counter means a
      reset, whose growth is unknown and counted as nothing. */
  function Amount(w: Window, p: RawPoint, q: RawPoint): real {
    if !Overlaps(w, p, q) then 0.0
    else
      var lo, hi := Later(p.asof, w.ts) as real, Earlier(q.asof, w.te) as real;
      match w.kind
      case Absolute => Primitive(p, q, hi) - Primitive(p, q, lo)
      case Rate => if Falling(p, q) then 0.0 else Slope(p, q) * (hi - lo)
  }

  /** The length of the shared stretch.  A falling counter that spans the whole window covers nothing. */
  function Cover(w: Window, p: RawPoint, q: RawPoint): real {
    if !Overlaps(w, p, q) || (w.kind.Rate? && Falling(p, q) && Spans(w, p, q)) then 0.0
    else (Earlier(q.asof, w.te) - Later(p.asof, w.ts)) as real
  }

  // ----- The whole array -----

  function Segments(raw: seq<RawPoint>): nat { if |raw| == 0 then 0 else |raw| - 1 }

  /** The amounts of the first n segments. */
  function AmountUpTo(w: Window, raw: seq<RawPoint>, n: nat): real
    requires n <= Segments(raw)
  {
    if n == 0 then 0.0 else AmountUpTo(w, raw, n - 1) + Amount(w, raw[n-1], raw[n])
  }

  function CoverUpTo(w: Window, raw: seq<RawPoint>, n: nat): real
    requires n <= Segments(raw)
  {
    if n == 0 then 0.0 else CoverUpTo(w, raw, n - 1) + Cover(w, raw[n-1], raw[n])
  }

  function TotalAmount(w: Window, raw: seq<RawPoint>): real { AmountUpTo(w, raw, Segments(raw)) }

  function TotalCover(w: Window, raw: seq<RawPoint>): real { CoverUpTo(w, raw, Segments(raw)) }

  /** The heights that sample k and the segment after it mark within the window: the sample itself, and
      the points where the segment is cut by the window's edges; for a counter, the segment's rate. */
  function MarksAt(w: Window, raw: seq<RawPoint>, k: nat): set<real>
    requires k < |raw|
  {
    match w.kind
    case Absolute =>
      (if w.ts <= raw[k].asof <= w.te then {raw[k].value} else {}) +
      (if k + 1 < |raw| && Overlaps(w, raw[k], raw[k+1]) then CutsOf(w, raw[k], raw[k+1]) else {})
    case Rate =>
      if k + 1 < |raw| && Overlaps(w, raw[k], raw[k+1]) && !Falling(raw[k], raw[k+1])
      then {Slope(raw[k], raw[k+1])} else {}
  }

  function CutsOf(w: Window, p: RawPoint, q: RawPoint): set<real>
    requires p.asof < q.asof
  {
    (if p.asof < w.ts then {LineAt(p, q, w.ts as real)} else {}) +
    (if w.te < q.asof then {LineAt(p, q, w.te as real)} else {})
  }

  function MarksUpTo(w: Window, raw: seq<RawPoint>, n: nat): set<real>
    requires n <= |raw|
  {
    if n == 0 then {} else MarksUpTo(w, raw, n - 1) + MarksAt(w, raw, n - 1)
  }

  function Marks(w: Window, raw: seq<RawPoint>): set<real> { MarksUpTo(w, raw, |raw|) }

  ghost predicate IsMin(m: Float, s: set<real>) {
    if s == {} then m.NaN? else m.Num? && m.v in s && forall v :: v in s ==> m.v <= v
  }

  ghost predicate IsMax(m: Float, s: set<real>) {
    if s == {} then m.NaN? else m.Num? && m.v in s && forall v :: v in s ==> v <= m.v
  }

  /** The index of the first sample at or after ts. */
  function FirstFrom(raw: seq<RawPoint>, ts: int): (i: nat)
    ensures i <= |raw|
    ensures i < |raw| ==> raw[i].asof >= ts
    ensures forall k :: 0 <= k < i ==> raw[k].asof < ts
  {
    if raw == [] || raw[0].asof >= ts then 0
    else
      var i := FirstFrom(raw[1..], ts);
      assert forall k :: 1 <= k < i + 1 ==> raw[k] == raw[1..][k-1];
      i + 1
  }

  /** The value of the first gauge sample in [ts, te), if there is one. */
  function FirstWithin(w: Window, raw: seq<RawPoint>): Float {
    var i := FirstFrom(raw, w.ts);
    if w.kind.Absolute? && i < |raw| && raw[i].asof < w.te then Num(raw[i].value) else NaN
  }

  /** The output point made of an amount over a covered length and a set of marks; where nothing is
      covered, the lone sample `first` stands in. */
  ghost predicate IsPoint(ts: int, amount: real, cover: real, marks: set<real>, first: Float, p: IntPoint) {
    && p.asof == ts
    && if cover > 0.0 then p.avg == Num(amount / cover) && IsMin(p.min, marks) && IsMax(p.max, marks)
       else p.avg == first && p.min == first && p.max == first
  }

  /** p is the right output for window w. */
  ghost predicate IsStep(w: Window, raw: seq<RawPoint>, p: IntPoint) {
    IsPoint(w.ts, TotalAmount(w, raw), TotalCover(w, raw), Marks(w, raw), FirstWithin(w, raw), p)
  }

  /** Two arrays mean the same within window w. */
  ghost predicate Alike(w: Window, raw: seq<RawPoint>, other: seq<RawPoint>) {
    && TotalAmount(w, raw) == TotalAmount(w, other) && TotalCover(w, raw) == TotalCover(w, other)
    && Marks(w, raw) == Marks(w, other) && FirstWithin(w, raw) == FirstWithin(w, other)
  }

  // ----- Samples and segments outside the window count for nothing -----

  lemma {:induction false} NothingBefore(w: Window, raw: seq<RawPoint>, n: nat)
    requires n <= Segments(raw)
    requires n == 0 || forall k :: 0 <= k <= n ==> raw[k].asof < w.ts
    ensures AmountUpTo(w, raw, n) == 0.0 && CoverUpTo(w, raw, n) == 0.0
    ensures MarksUpTo(w, raw, n) == {}
  {
    if n == 0 {
    } else {
      NothingBefore(w, raw, n - 1);
      assert !Overlaps(w, raw[n-1], raw[n]);
      assert MarksAt(w, raw, n - 1) == {};
    }
  }

  lemma {:induction false} NothingAfter(w: Window, raw: seq<RawPoint>, m: nat, n: nat)
    requires m <= n <= Segments(raw)
    requires forall k :: m <= k < n ==> raw[k].asof > w.te
    ensures AmountUpTo(w, raw, n) == AmountUpTo(w, raw, m) && CoverUpTo(w, raw, n) == CoverUpTo(w, raw, m)
  {
    if m == n {
    } else {
      NothingAfter(w, raw, m, n - 1);
      assert !Overlaps(w, raw[n-1], raw[n]);
    }
  }

  lemma {:induction false} NoMarksAfter(w: Window, raw: seq<RawPoint>, m: nat, n: nat)
    requires m <= n <= |raw|
    requires forall k :: m <= k < n ==> raw[k].asof > w.te
    ensures MarksUpTo(w, raw, n) == MarksUpTo(w, raw, m)
  {
    if m == n {
    } else {
      NoMarksAfter(w, raw, m, n - 1);
      assert MarksAt(w, raw, n - 1) == {};
    }
  }
}
