/** A gauge sample that lies on the line between two joined neighbours adds no information. */
module Insertion {
  import opened TimeSeries
  import opened Curve
  import opened Trim
  import opened Extremes

  function Inserted(raw: seq<RawPoint>, k: nat, q: RawPoint): seq<RawPoint>
    requires k < |raw|
  {
    raw[..k+1] + [q] + raw[k+1..]
  }

  /** q lies on the line from a to b, strictly between them. */
  ghost predicate Between(a: RawPoint, q: RawPoint, b: RawPoint) {
    a.asof < q.asof < b.asof && q.value == LineAt(a, b, q.asof as real)
  }

  // ----- The two halves of a split segment -----

  lemma SlopeOfRise(p: RawPoint, q: RawPoint, s: real)
    requires p.asof < q.asof && q.value - p.value == s * (q.asof as real - p.asof as real)
    ensures Slope(p, q) == s
  {
    var d := (q.asof - p.asof) as real;
    assert d == q.asof as real - p.asof as real;
    assert s * d / d == s;
  }

  lemma HalvesShareLine(a: RawPoint, q: RawPoint, b: RawPoint, t: real)
    requires Between(a, q, b)
    ensures LineAt(a, q, t) == LineAt(a, b, t) == LineAt(q, b, t)
  {
    var s, x, y, z := Slope(a, b), a.asof as real, q.asof as real, b.asof as real;
    LineEnds(a, b);
    RiseOverStretch(a, b, x, y);
    RiseOverStretch(a, b, y, z);
    SlopeOfRise(a, q, s);
    SlopeOfRise(q, b, s);
    Unfold(a, b, t);
    Unfold(a, b, y);
    Unfold(a, q, t);
    Unfold(q, b, t);
    hide Slope, LineAt;
    ScaleDifference(s, y - x, t - x);
  }

  /** The integral over a stretch depends only on the line. */
  lemma SameLineSameIntegral(p: RawPoint, q: RawPoint, a: RawPoint, b: RawPoint, lo: real, hi: real)
    requires p.asof < q.asof && a.asof < b.asof
    requires LineAt(p, q, lo) == LineAt(a, b, lo) && LineAt(p, q, hi) == LineAt(a, b, hi)
    ensures Primitive(p, q, hi) - Primitive(p, q, lo) == Primitive(a, b, hi) - Primitive(a, b, lo)
  {
    TrapezoidIsIntegral(p, q, lo, hi);
    TrapezoidIsIntegral(a, b, lo, hi);
    hide Primitive, LineAt;
  }

  lemma HalfShare(w: Window, p: RawPoint, q: RawPoint, a: RawPoint, b: RawPoint)
    requires w.kind.Absolute? && p.asof < q.asof && a.asof < b.asof && Joined(w, p, q)
    requires forall t :: LineAt(p, q, t) == LineAt(a, b, t)
    ensures var (lo, hi) := (Later(p.asof, w.ts), Earlier(q.asof, w.te));
            && Amount(w, p, q) == (if lo < hi then Primitive(a, b, hi as real) - Primitive(a, b, lo as real) else 0.0)
            && Cover(w, p, q) == (if lo < hi then hi as real - lo as real else 0.0)
  {
    var lo, hi := Later(p.asof, w.ts), Earlier(q.asof, w.te);
    SameLineSameIntegral(p, q, a, b, lo as real, hi as real);
    hide Primitive, LineAt;
  }

  lemma HalvesAddUp(w: Window, a: RawPoint, q: RawPoint, b: RawPoint)
    requires w.kind.Absolute? && w.ts < w.te && Between(a, q, b) && Joined(w, a, b)
    ensures Amount(w, a, q) + Amount(w, q, b) == Amount(w, a, b)
    ensures Cover(w, a, q) + Cover(w, q, b) == Cover(w, a, b)
  {
    forall t ensures LineAt(a, q, t) == LineAt(a, b, t) == LineAt(q, b, t) {
      HalvesShareLine(a, q, b, t);
    }
    HalfShare(w, a, q, a, b);
    HalfShare(w, q, b, a, b);
    HalfShare(w, a, b, a, b);
    hide Primitive, LineAt, Amount, Cover;
  }

  // ----- Sums -----

  lemma InsertedSums(w: Window, raw: seq<RawPoint>, k: nat, q: RawPoint)
    requires w.kind.Absolute? && w.ts < w.te && k + 1 < |raw|
    requires Between(raw[k], q, raw[k+1]) && Joined(w, raw[k], raw[k+1])
    ensures TotalAmount(w, Inserted(raw, k, q)) == TotalAmount(w, raw)
    ensures TotalCover(w, Inserted(raw, k, q)) == TotalCover(w, raw)
  {
    hide Amount, Cover, Between;
    var more := Inserted(raw, k, q);
    var rest := raw[k+1..];
    assert more[k+2..] == rest && more[..k+1] == raw[..k+1];
    PrefixSums(w, raw, k + 1, k);
    PrefixSums(w, more, k + 1, k);
    SuffixSums(w, raw, k + 1, Segments(rest));
    SuffixSums(w, more, k + 2, Segments(rest));
    HalvesAddUp(w, raw[k], q, raw[k+1]);
    TwoMoreSegments(w, more, k);
  }

  lemma TwoMoreSegments(w: Window, raw: seq<RawPoint>, k: nat)
    requires k + 2 < |raw|
    ensures AmountUpTo(w, raw, k + 2)
         == AmountUpTo(w, raw, k) + Amount(w, raw[k], raw[k+1]) + Amount(w, raw[k+1], raw[k+2])
    ensures CoverUpTo(w, raw, k + 2) == CoverUpTo(w, raw, k) + Cover(w, raw[k], raw[k+1]) + Cover(w, raw[k+1], raw[k+2])
  {
    hide Amount, Cover;
    assert AmountUpTo(w, raw, k + 1) == AmountUpTo(w, raw, k) + Amount(w, raw[k], raw[k+1]);
    assert CoverUpTo(w, raw, k + 1) == CoverUpTo(w, raw, k) + Cover(w, raw[k], raw[k+1]);
  }

  // ----- Marks -----

  lemma {:induction false} CommonMarks(w: Window, raw: seq<RawPoint>, other: seq<RawPoint>, n: nat)
    requires n < |raw| && n < |other| && raw[..n+1] == other[..n+1]
    ensures MarksUpTo(w, raw, n) == MarksUpTo(w, other, n)
  {
    if n == 0 {
    } else {
      assert raw[..n] == raw[..n+1][..n] == other[..n];
      CommonMarks(w, raw, other, n - 1);
      assert raw[n] == raw[..n+1][n] && raw[n-1] == raw[..n+1][n-1];
    }
  }

  /** The height of q, if q lies in the window. */
  function ExtraMark(w: Window, q: RawPoint): set<real> {
    if w.ts <= q.asof <= w.te then {q.value} else {}
  }

  lemma SplitCuts(w: Window, a: RawPoint, q: RawPoint, b: RawPoint)
    requires w.kind.Absolute? && w.ts < w.te && Between(a, q, b) && Joined(w, a, b)
    ensures var whole := if Overlaps(w, a, b) then CutsOf(w, a, b) else {};
            var left := if Overlaps(w, a, q) then CutsOf(w, a, q) else {};
            var right := if Overlaps(w, q, b) then CutsOf(w, q, b) else {};
            left + ExtraMark(w, q) + right == whole + ExtraMark(w, q)
  {
    HalvesShareLine(a, q, b, w.ts as real);
    HalvesShareLine(a, q, b, w.te as real);
    hide LineAt;
  }

  lemma InsertedMarks(w: Window, raw: seq<RawPoint>, k: nat, q: RawPoint)
    requires w.kind.Absolute? && w.ts < w.te && k + 1 < |raw|
    requires Between(raw[k], q, raw[k+1]) && Joined(w, raw[k], raw[k+1])
    ensures Marks(w, Inserted(raw, k, q)) == Marks(w, raw) + ExtraMark(w, q)
  {
    hide MarksAt, ExtraMark, Between, Joined;
    var more := Inserted(raw, k, q);
    var rest := raw[k+1..];
    assert more[k+2..] == rest && more[..k+1] == raw[..k+1];
    SuffixMarks(w, raw, k + 1, |rest|);
    SuffixMarks(w, more, k + 2, |rest|);
    CommonMarks(w, raw, more, k);
    MiddleMarks(w, raw, k, q);
    assert MarksUpTo(w, more, k + 1) == MarksUpTo(w, more, k) + MarksAt(w, more, k);
    Regroup(MarksUpTo(w, raw, k), MarksAt(w, raw, k), ExtraMark(w, q), Marks(w, rest),
            MarksAt(w, more, k), MarksAt(w, more, k + 1));
  }

  lemma Regroup(a: set<real>, b: set<real>, x: set<real>, c: set<real>, m: set<real>, n: set<real>)
    requires m + n == b + x
    ensures a + m + n + c == a + b + c + x
  {
    assert a + m + n + c == a + (m + n) + c;
  }

  lemma MiddleMarks(w: Window, raw: seq<RawPoint>, k: nat, q: RawPoint)
    requires w.kind.Absolute? && w.ts < w.te && k + 1 < |raw|
    requires Between(raw[k], q, raw[k+1]) && Joined(w, raw[k], raw[k+1])
    ensures var more := Inserted(raw, k, q);
            MarksAt(w, more, k) + MarksAt(w, more, k + 1) == MarksAt(w, raw, k) + ExtraMark(w, q)
  {
    var more := Inserted(raw, k, q);
    assert more[k] == raw[k] && more[k+1] == q && more[k+2] == raw[k+1];
    SplitCuts(w, raw[k], q, raw[k+1]);
    hide CutsOf, Overlaps, Between;
  }

  /** A mark between two others changes neither extreme. */
  lemma InnerMark(s: set<real>, v: real, m: Float, lo: real, hi: real)
    requires lo in s && hi in s && lo <= v <= hi
    ensures IsMin(m, s + {v}) <==> IsMin(m, s)
    ensures IsMax(m, s + {v}) <==> IsMax(m, s)
  {
    assert v in s + {v} && lo in s + {v} && hi in s + {v};
    if IsMin(m, s + {v}) {
      assert m.v == v ==> lo == v;
      assert forall x :: x in s ==> x in s + {v};
    }
    if IsMax(m, s + {v}) {
      assert m.v == v ==> hi == v;
      assert forall x :: x in s ==> x in s + {v};
    }
  }

  lemma ExtraMarkIsInner(w: Window, raw: seq<RawPoint>, k: nat, q: RawPoint) returns (lo: real, hi: real)
    requires w.kind.Absolute? && w.ts < w.te && k + 1 < |raw| && w.ts <= q.asof <= w.te
    requires Between(raw[k], q, raw[k+1]) && Joined(w, raw[k], raw[k+1])
    ensures lo in Marks(w, raw) && hi in Marks(w, raw) && lo <= q.value <= hi
  {
    var a, b := raw[k], raw[k+1];
    var x, y := Later(a.asof, w.ts) as real, Earlier(b.asof, w.te) as real;
    EndsAreMarks(w, raw, k);
    RiseOverStretch(a, b, x, q.asof as real);
    RiseOverStretch(a, b, q.asof as real, y);
    hide Marks, LineAt, Slope;
    if Falling(a, b) {
      lo, hi := LineAt(a, b, y), LineAt(a, b, x);
    } else {
      lo, hi := LineAt(a, b, x), LineAt(a, b, y);
    }
  }

  lemma InsertedExtremes(w: Window, raw: seq<RawPoint>, k: nat, q: RawPoint, m: Float)
    requires w.kind.Absolute? && w.ts < w.te && k + 1 < |raw|
    requires Between(raw[k], q, raw[k+1]) && Joined(w, raw[k], raw[k+1])
    ensures IsMin(m, Marks(w, Inserted(raw, k, q))) <==> IsMin(m, Marks(w, raw))
    ensures IsMax(m, Marks(w, Inserted(raw, k, q))) <==> IsMax(m, Marks(w, raw))
  {
    InsertedMarks(w, raw, k, q);
    hide Marks, Inserted;
    if w.ts <= q.asof <= w.te {
      var lo, hi := ExtraMarkIsInner(w, raw, k, q);
      InnerMark(Marks(w, raw), q.value, m, lo, hi);
    } else {
      assert Marks(w, raw) + {} == Marks(w, raw);
    }
  }

  // ----- The lone sample -----

  lemma InsertedFirst(w: Window, raw: seq<RawPoint>, k: nat, q: RawPoint)
    requires w.kind.Absolute? && w.ts < w.te && k + 1 < |raw| && StrictlySorted(raw)
    requires Between(raw[k], q, raw[k+1]) && !Overlaps(w, raw[k], raw[k+1]) && Joined(w, raw[k], raw[k+1])
    ensures FirstWithin(w, Inserted(raw, k, q)) == FirstWithin(w, raw)
  {
    hide LineAt;
    var more := Inserted(raw, k, q);
    var i := FirstFrom(raw, w.ts);
    if w.te <= raw[k].asof {
      assert i <= k;
      assert forall j :: 0 <= j <= i ==> more[j] == raw[j];
      FirstFromIs(more, w.ts, i);
    } else {
      assert raw[k+1].asof <= w.ts;
      assert i > k;
      forall j | 0 <= j < i + 1 ensures more[j].asof < w.ts {
        if j <= k {
          assert more[j] == raw[j];
        } else if j > k + 1 {
          assert more[j] == raw[j-1];
        }
      }
      assert i < |raw| ==> more[i+1] == raw[i];
      FirstFromIs(more, w.ts, i + 1);
    }
  }

  /** Inserting a sample on the line between two joined neighbours leaves every output unchanged. */
  lemma InsertedSampleIsInvisible(w: Window, raw: seq<RawPoint>, k: nat, q: RawPoint, p: IntPoint)
    requires w.kind.Absolute? && w.ts < w.te && k + 1 < |raw|
    requires forall i, j :: 0 <= i < j < |raw| ==> raw[i].asof < raw[j].asof
    requires Between(raw[k], q, raw[k+1]) && raw[k+1].asof - raw[k].asof <= w.maxFill
    ensures IsStep(w, Inserted(raw, k, q), p) <==> IsStep(w, raw, p)
  {
    InsertedSums(w, raw, k, q);
    InsertedExtremes(w, raw, k, q, p.min);
    InsertedExtremes(w, raw, k, q, p.max);
    if !Overlaps(w, raw[k], raw[k+1]) {
      InsertedFirst(w, raw, k, q);
    } else {
      SegmentIsCovered(w, raw, k, Segments(raw));
    }
    hide IsMin, IsMax, Marks, TotalAmount, TotalCover, FirstWithin, Inserted;
  }
}
