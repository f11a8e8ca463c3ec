/** The rolling extremes of a temperature sensor: six slots of four hours each, -128 standing for no reading. */
module MinMaxWindow {
  import opened Wrappers

  type int8 = n: int | -128 <= n < 128 witness 0

  const UNSET: int8 := -128
  const SLOTS := 6
  const TEMP_OFFSET := 88

  type Slots = s: seq<int8> | |s| == SLOTS witness [0, 0, 0, 0, 0, 0]

  datatype Row = Row(lows: Slots, highs: Slots)

  datatype Event = Rotation | Reading(m: int8)

  const FRESH: Row := Row([UNSET, UNSET, UNSET, UNSET, UNSET, UNSET], [UNSET, UNSET, UNSET, UNSET, UNSET, UNSET])

  function All(m: int8): Slots { [m, m, m, m, m, m] }

  function Rotated(r: Row): Row {
    Row([UNSET] + r.lows[..SLOTS-1], [UNSET] + r.highs[..SLOTS-1])
  }

  function Lowered(lows: Slots, m: int8): Slots {
    if lows[SLOTS-1] == UNSET then All(m)
    else if lows[0] == UNSET || m < lows[0] then lows[0 := m]
    else lows
  }

  function Raised(highs: Slots, m: int8): Slots {
    if highs[SLOTS-1] == UNSET then All(m)
    else if m > highs[0] then highs[0 := m]
    else highs
  }

  function Read(r: Row, m: int8): Row {
    Row(Lowered(r.lows, m), Raised(r.highs, m))
  }

  function Apply(r: Row, e: Event): Row {
    match e
    case Rotation => Rotated(r)
    case Reading(m) => Read(r, m)
  }

  function After(r: Row, es: seq<Event>): Row {
    if es == [] then r else Apply(After(r, es[..|es|-1]), es[|es|-1])
  }

  predicate IsLeast(x: int8, s: seq<int8>) { x in s && forall j :: 0 <= j < |s| ==> x <= s[j] }

  predicate IsGreatest(x: int8, s: seq<int8>) { x in s && forall j :: 0 <= j < |s| ==> s[j] <= x }

  // ----- The readings behind it -----

  /** Readings grouped by period, the current one last. */
  type Grouped = ps: seq<seq<int8>> | |ps| >= 1 witness [[]]

  /** The readings among events. */
  function Periods(es: seq<Event>): Grouped {
    if es == [] then [[]] else Noted(Periods(es[..|es|-1]), es[|es|-1])
  }

  function Noted(ps: Grouped, e: Event): Grouped {
    match e
    case Rotation => ps + [[]]
    case Reading(m) => ps[|ps|-1 := ps[|ps|-1] + [m]]
  }

  lemma FirstOfPeriod(ps: Grouped, m: int8)
    requires ps[|ps|-1] == []
    ensures Noted(ps, Reading(m)) == ps[..|ps|-1] + [[m]]
  {
    assert ps[|ps|-1] + [m] == [m];
  }

  /** One of the readings of the current and the previous five periods. */
  predicate InWindow(ps: Grouped, x: int8) {
    exists i :: 0 <= i < |ps| && |ps| - SLOTS <= i && x in ps[i]
  }

  ghost predicate HasReading(ps: Grouped) { exists y: int8 :: InWindow(ps, y) }

  /** A period of the window went by, or is going by, without a reading. */
  predicate Skipped(ps: Grouped) { exists i :: 0 <= i < |ps| && |ps| - SLOTS <= i && ps[i] == [] }

  /** The period five before the current one went by without a reading. */
  predicate OldestSkipped(ps: Grouped) { |ps| >= SLOTS && ps[|ps|-SLOTS] == [] }

  /** No reading fell into a period whose fifth predecessor went by without one. */
  predicate NoWipe(ps: Grouped) {
    forall i :: SLOTS - 1 <= i < |ps| && ps[i] != [] ==> ps[i-(SLOTS-1)] != []
  }

  predicate Proper(es: seq<Event>) { forall k :: 0 <= k < |es| ==> es[k].Reading? ==> es[k].m > UNSET }

  // ----- What the slots hold -----

  /** The least reading of a period, or the mark for none. */
  predicate LowOf(x: int8, p: seq<int8>) { if p == [] then x == UNSET else IsLeast(x, p) }

  predicate HighOf(x: int8, p: seq<int8>) { if p == [] then x == UNSET else IsGreatest(x, p) }

  /** Slot j sums up its period, or stands at m if that was before the first. */
  predicate SlotSums(r: Row, m: int8, ps: Grouped, j: nat)
    requires j < SLOTS
  {
    if j < |ps| then LowOf(r.lows[j], ps[|ps|-1-j]) && HighOf(r.highs[j], ps[|ps|-1-j])
    else r.lows[j] == m && r.highs[j] == m
  }

  /** After a reading m has set all slots, each slot sums up its period, and the slots of earlier periods stand
      at m. */
  ghost predicate Summed(r: Row, m: int8, ps: Grouped)
  {
    forall j :: 0 <= j < SLOTS ==> SlotSums(r, m, ps, j)
  }

  ghost predicate AllSet(ps: Grouped) {
    forall i, k :: 0 <= i < |ps| && 0 <= k < |ps[i]| ==> ps[i][k] > UNSET
  }

  lemma RotationSums(r: Row, m: int8, ps: Grouped)
    requires Summed(r, m, ps)
    ensures Summed(Rotated(r), m, ps + [[]])
  {
    var out, qs := Rotated(r), ps + [[]];
    forall j | 0 <= j < SLOTS ensures SlotSums(out, m, qs, j) {
      if j > 0 {
        assert SlotSums(r, m, ps, j - 1);
        assert j < |qs| ==> qs[|qs|-1-j] == ps[|ps|-1-(j-1)];
      }
    }
  }

  lemma LowerWith(x: int8, p: seq<int8>, m: int8)
    requires LowOf(x, p) && m > UNSET && (p != [] ==> x > UNSET)
    ensures LowOf(if x == UNSET || m < x then m else x, p + [m])
  {
    if p == [] {
      assert p + [m] == [m];
    } else {
      assert x in p + [m];
    }
    assert m in p + [m];
  }

  lemma HigherWith(x: int8, p: seq<int8>, m: int8)
    requires HighOf(x, p) && m > UNSET
    ensures HighOf(if m > x then m else x, p + [m])
  {
    if p == [] {
      assert p + [m] == [m];
    } else {
      assert x in p + [m];
    }
    assert m in p + [m];
  }

  /** The oldest slot is unset exactly when its period went by without a reading. */
  lemma OldestSlot(r: Row, m: int8, ps: Grouped)
    requires Summed(r, m, ps) && AllSet(ps) && m > UNSET
    ensures r.lows[SLOTS-1] == UNSET <==> OldestSkipped(ps)
    ensures r.highs[SLOTS-1] == UNSET <==> OldestSkipped(ps)
  {
    assert SlotSums(r, m, ps, SLOTS - 1);
  }

  lemma ReadingSums(r: Row, m: int8, ps: Grouped, x: int8)
    requires Summed(r, m, ps) && AllSet(ps) && !OldestSkipped(ps) && m > UNSET && x > UNSET
    ensures Summed(Read(r, x), m, ps[|ps|-1 := ps[|ps|-1] + [x]])
  {
    var last := ps[|ps|-1];
    OldestSlot(r, m, ps);
    assert SlotSums(r, m, ps, 0);
    assert last != [] ==> r.lows[0] in last;
    LowerWith(r.lows[0], last, x);
    HigherWith(r.highs[0], last, x);
    hide LowOf, HighOf, OldestSkipped, AllSet;
    var out, qs := Read(r, x), ps[|ps|-1 := last + [x]];
    forall j | 0 <= j < SLOTS ensures SlotSums(out, m, qs, j) {
      assert SlotSums(r, m, ps, j);
      if j > 0 {
        assert out.lows[j] == r.lows[j] && out.highs[j] == r.highs[j];
        assert j < |qs| ==> qs[|qs|-1-j] == ps[|ps|-1-j];
      }
    }
  }

  lemma FirstReadingSums(r: Row, m: int8)
    requires OldestUnset(r) && m > UNSET
    ensures Summed(Read(r, m), m, [[m]])
  {
  }

  /** The next reading sets all slots. */
  predicate OldestUnset(r: Row)
  {
    r.lows[SLOTS-1] == UNSET && r.highs[SLOTS-1] == UNSET
  }

  // ----- Starting afresh -----

  /** The events from the last reading on that found the oldest slot unset: the first reading of all, or one in a
      period whose fifth predecessor, counted from there, went by without a reading. */
  function Since(es: seq<Event>): (s: seq<Event>)
    ensures s != [] ==> s[0].Reading?
  {
    if es == [] then []
    else
      var (before, e) := (Since(es[..|es|-1]), es[|es|-1]);
      if e.Reading? && (before == [] || OldestSkipped(Periods(before))) then [e]
      else if before == [] then []
      else before + [e]
  }

  /** They are the end of all events. */
  lemma {:induction false} SinceIsEnd(es: seq<Event>)
    ensures |Since(es)| <= |es| && es[|es|-|Since(es)|..] == Since(es)
  {
    if es == [] {
    } else {
      var n, before := |es| - 1, Since(es[..|es|-1]);
      SinceIsEnd(es[..n]);
      SinceOneMore(es);
      hide Since, OldestSkipped, Periods;
      EndGrows(es, before);
    }
  }

  lemma EndGrows(es: seq<Event>, before: seq<Event>)
    requires var n := |es| - 1; n >= |before| && es[..n][n-|before|..] == before
    ensures es[|es|-1-|before|..] == before + [es[|es|-1]] && es[|es|-1..] == [es[|es|-1]] && es[|es|..] == []
  {
    var n := |es| - 1;
    assert es == es[..n] + [es[n]];
  }

  /** qs is the end of ps. */
  predicate EndsIn(ps: Grouped, qs: Grouped) { |qs| <= |ps| && ps[|ps|-|qs|..] == qs }

  /** What is known of the slots: they sum up the periods since they started afresh, no reading since has wiped
      them, and the reading that did was the first of its period. */
  ghost predicate Known(r: Row, s: seq<Event>, ps: Grouped)
  {
    && AllSet(ps)
    && if s == [] then r == FRESH && forall i :: 0 <= i < |ps| ==> ps[i] == []
    else
      && s[0].Reading? && s[0].m > UNSET
      && Summed(r, s[0].m, Periods(s)) && AllSet(Periods(s)) && NoWipe(Periods(s))
      && s[0].m in Periods(s)[0] && EndsIn(ps, Periods(s))
  }

  lemma {:induction false} PeriodsMore(s: seq<Event>, e: Event)
    ensures Periods(s + [e]) == Noted(Periods(s), e)
  {
    assert (s + [e])[..|s|] == s;
  }

  lemma PeriodsOfOne(m: int8)
    ensures Periods([Reading(m)]) == [[m]]
  {
    var none: seq<Event> := [];
    PeriodsMore(none, Reading(m));
    assert none + [Reading(m)] == [Reading(m)];
    FirstOfPeriod([[]], m);
  }

  lemma EndNoted(ps: Grouped, qs: Grouped, e: Event)
    requires EndsIn(ps, qs)
    ensures EndsIn(Noted(ps, e), Noted(qs, e))
  {
    var (more, end) := (Noted(ps, e), Noted(qs, e));
    assert ps[|ps|-1] == qs[|qs|-1];
    assert |more| - |end| == |ps| - |qs|;
    forall i | 0 <= i < |end| ensures more[|more|-|end|+i] == end[i] {
      assert i < |qs| ==> ps[|ps|-|qs|+i] == qs[i];
    }
  }

  lemma EndAt(ps: Grouped, qs: Grouped, i: nat)
    requires EndsIn(ps, qs) && i < |qs|
    ensures ps[|ps|-|qs|+i] == qs[i]
  {
    assert ps[|ps|-|qs|..][i] == qs[i];
  }

  /** A wiping reading is the first of its period. */
  lemma {:induction false} WipeIsFirst(r: Row, s: seq<Event>, ps: Grouped)
    requires Known(r, s, ps) && (s == [] || OldestSkipped(Periods(s)))
    ensures ps[|ps|-1] == [] && OldestUnset(r)
  {
    if s == [] {
    } else {
      var qs := Periods(s);
      OldestSlot(r, s[0].m, qs);
      assert qs[|qs|-1] == [];
      assert ps[|ps|-|qs|..][|qs|-1] == ps[|ps|-1];
    }
  }

  lemma {:induction false} WipingReading(r: Row, s: seq<Event>, ps: Grouped, m: int8)
    requires Known(r, s, ps) && (s == [] || OldestSkipped(Periods(s))) && m > UNSET
    ensures Known(Read(r, m), [Reading(m)], Noted(ps, Reading(m)))
  {
    WipeIsFirst(r, s, ps);
    FirstReadingSums(r, m);
    PeriodsOfOne(m);
    FirstOfPeriod(ps, m);
    hide Summed, Read, Periods, OldestUnset, OldestSkipped;
    assert EndsIn(ps[..|ps|-1] + [[m]], [[m]]);
  }

  lemma SetNoted(ps: Grouped, e: Event)
    requires AllSet(ps) && (e.Reading? ==> e.m > UNSET)
    ensures AllSet(Noted(ps, e))
  {
  }

  lemma UnwipedNoted(ps: Grouped, e: Event)
    requires NoWipe(ps) && (e.Reading? ==> !OldestSkipped(ps))
    ensures NoWipe(Noted(ps, e))
  {
    var more := Noted(ps, e);
    forall i | SLOTS - 1 <= i < |more| && more[i] != [] ensures more[i-(SLOTS-1)] != [] {
      assert more[i-(SLOTS-1)] == ps[i-(SLOTS-1)];
      assert i < |ps| - 1 ==> more[i] == ps[i];
    }
  }

  lemma FirstNoted(ps: Grouped, e: Event, m: int8)
    requires m in ps[0]
    ensures m in Noted(ps, e)[0]
  {
  }

  lemma {:induction false} OrdinaryReading(r: Row, s: seq<Event>, ps: Grouped, m: int8)
    requires Known(r, s, ps) && s != [] && !OldestSkipped(Periods(s)) && m > UNSET
    ensures Known(Read(r, m), s + [Reading(m)], Noted(ps, Reading(m)))
  {
    hide Summed, Read, Periods, EndsIn, AllSet, NoWipe, OldestSkipped, Noted;
    var e, qs := Reading(m), Periods(s);
    ReadingSums(r, s[0].m, qs, m);
    NotedReading(qs, m);
    PeriodsMore(s, e);
    EndNoted(ps, qs, e);
    SetNoted(ps, e);
    SetNoted(qs, e);
    UnwipedNoted(qs, e);
    FirstNoted(qs, e, s[0].m);
  }

  lemma NotedReading(ps: Grouped, m: int8)
    ensures Noted(ps, Reading(m)) == ps[|ps|-1 := ps[|ps|-1] + [m]]
  {
  }

  lemma OneRotation(r: Row, s: seq<Event>, ps: Grouped)
    requires Known(r, s, ps)
    ensures Known(Rotated(r), if s == [] then [] else s + [Rotation], Noted(ps, Rotation))
  {
    if s == [] {
      assert Rotated(FRESH) == FRESH;
    } else {
      hide Summed, Rotated, Periods, EndsIn, NoWipe, OldestSkipped;
      var qs := Periods(s);
      RotationSums(r, s[0].m, qs);
      PeriodsMore(s, Rotation);
      EndNoted(ps, qs, Rotation);
      UnwipedNoted(qs, Rotation);
    }
  }

  lemma {:induction false} KnownAfter(es: seq<Event>)
    requires Proper(es)
    ensures Known(After(FRESH, es), Since(es), Periods(es))
  {
    hide Known, Read, Rotated, OldestSkipped;
    if es == [] {
      assert Known(FRESH, [], [[]]) by { NothingKnown(); }
    } else {
      var n := |es| - 1;
      var r, s, ps := After(FRESH, es[..n]), Since(es[..n]), Periods(es[..n]);
      KnownAfter(es[..n]);
      match es[n]
      case Rotation => OneRotation(r, s, ps);
      case Reading(m) =>
        if s == [] || OldestSkipped(Periods(s)) {
          WipingReading(r, s, ps, m);
        } else {
          OrdinaryReading(r, s, ps, m);
        }
    }
  }

  lemma NothingKnown()
    ensures Known(FRESH, [], [[]])
  {
  }

  // ----- What is shown -----

  function Lowest(lows: seq<int8>): (t: int8)
    requires lows != []
    ensures IsLeast(t, lows)
  {
    if |lows| == 1 then lows[0]
    else
      var t := Lowest(lows[..|lows|-1]);
      if lows[|lows|-1] < t then lows[|lows|-1] else t
  }

  function Highest(highs: seq<int8>): (t: int8)
    requires highs != []
    ensures IsGreatest(t, highs)
  {
    if |highs| == 1 then highs[0]
    else
      var t := Highest(highs[..|highs|-1]);
      if highs[|highs|-1] > t then highs[|highs|-1] else t
  }

  ghost predicate WindowLeast(ps: Grouped, x: int8) {
    InWindow(ps, x) && forall y: int8 :: InWindow(ps, y) ==> x <= y
  }

  ghost predicate WindowGreatest(ps: Grouped, x: int8) {
    InWindow(ps, x) && forall y: int8 :: InWindow(ps, y) ==> y <= x
  }

  /** Every reading of the window is summed up by a slot. */
  lemma WindowIsCovered(r: Row, m: int8, ps: Grouped, y: int8) returns (j: nat)
    requires Summed(r, m, ps) && InWindow(ps, y)
    ensures j < SLOTS && r.lows[j] <= y <= r.highs[j]
  {
    var i :| 0 <= i < |ps| && |ps| - SLOTS <= i && y in ps[i];
    j := |ps| - 1 - i;
    assert ps[|ps|-1-j] == ps[i];
    assert SlotSums(r, m, ps, j);
  }

  /** A slot that is set holds readings of the window. */
  lemma SlotsAreOfWindow(r: Row, m: int8, ps: Grouped, j: nat)
    requires Summed(r, m, ps) && m in ps[0] && j < SLOTS
    requires j < |ps| ==> ps[|ps|-1-j] != []
    ensures InWindow(ps, r.lows[j]) && InWindow(ps, r.highs[j])
  {
    assert SlotSums(r, m, ps, j);
    var i := if j < |ps| then |ps| - 1 - j else 0;
    assert r.lows[j] in ps[i] && r.highs[j] in ps[i];
  }

  lemma WindowIsSet(ps: Grouped, x: int8)
    requires AllSet(ps) && InWindow(ps, x)
    ensures x > UNSET
  {
  }

  /** The lowest slot is the least reading since the slots started afresh, within the window, exactly when no
      period of the window since then went by without a reading. */
  lemma LowestOf(r: Row, m: int8, ps: Grouped)
    requires Summed(r, m, ps) && m in ps[0] && AllSet(ps)
    ensures WindowLeast(ps, Lowest(r.lows)) <==> !Skipped(ps)
    ensures Skipped(ps) ==> Lowest(r.lows) == UNSET
  {
    var t := Lowest(r.lows);
    if Skipped(ps) {
      var i :| 0 <= i < |ps| && |ps| - SLOTS <= i && ps[i] == [];
      assert SlotSums(r, m, ps, |ps| - 1 - i);
      if InWindow(ps, t) {
        WindowIsSet(ps, t);
      }
    } else {
      var j :| 0 <= j < SLOTS && r.lows[j] == t;
      SlotsAreOfWindow(r, m, ps, j);
      forall y: int8 | InWindow(ps, y) ensures t <= y {
        var k := WindowIsCovered(r, m, ps, y);
      }
    }
  }

  /** The highest slot is the greatest of those readings whenever there is one. */
  lemma HighestOf(r: Row, m: int8, ps: Grouped)
    requires Summed(r, m, ps) && m in ps[0] && AllSet(ps) && m > UNSET
    ensures WindowGreatest(ps, Highest(r.highs)) <==> HasReading(ps)
  {
    var t := Highest(r.highs);
    if HasReading(ps) {
      var y: int8 :| InWindow(ps, y);
      var k := WindowIsCovered(r, m, ps, y);
      WindowIsSet(ps, y);
      assert UNSET < r.highs[k] <= t;
      var j :| 0 <= j < SLOTS && r.highs[j] == t;
      assert SlotSums(r, m, ps, j);
      SlotsAreOfWindow(r, m, ps, j);
      forall z: int8 | InWindow(ps, z) ensures z <= t {
        var l := WindowIsCovered(r, m, ps, z);
      }
    }
  }

  /** A reading of the window from before the last n periods. */
  predicate Lost(ps: Grouped, n: nat, y: int8) {
    exists i :: 0 <= i < |ps| - n && |ps| - SLOTS <= i && y in ps[i]
  }

  ghost predicate AboveAll(qs: Grouped, y: int8) { forall x: int8 :: InWindow(qs, x) ==> x < y }

  ghost predicate BelowAll(qs: Grouped, y: int8) { forall x: int8 :: InWindow(qs, x) ==> y < x }

  /** A reading of the window from before the periods qs lies above all of the window since. */
  ghost predicate LostAbove(ps: Grouped, qs: Grouped) {
    exists y: int8 :: Lost(ps, |qs|, y) && AboveAll(qs, y)
  }

  ghost predicate LostBelow(ps: Grouped, qs: Grouped) {
    exists y: int8 :: Lost(ps, |qs|, y) && BelowAll(qs, y)
  }

  /** The window has a reading, and none from before the periods qs lies above all since. */
  ghost predicate MaximumKept(ps: Grouped, qs: Grouped) { HasReading(ps) && !LostAbove(ps, qs) }

  /** No period of the window since then is without a reading, and none from before lies below all since. */
  ghost predicate MinimumKept(ps: Grouped, qs: Grouped) { !Skipped(qs) && !LostBelow(ps, qs) }

  /** The window holds what it holds of the later periods, and what it holds from before. */
  lemma WindowParts(ps: Grouped, qs: Grouped, y: int8)
    requires EndsIn(ps, qs)
    ensures InWindow(ps, y) <==> InWindow(qs, y) || Lost(ps, |qs|, y)
  {
    var d := |ps| - |qs|;
    assert forall i :: d <= i < |ps| ==> ps[i] == qs[i-d];
    if InWindow(ps, y) {
      var i :| 0 <= i < |ps| && |ps| - SLOTS <= i && y in ps[i];
      assert i >= d ==> y in qs[i-d];
    }
    if InWindow(qs, y) {
      var i :| 0 <= i < |qs| && |qs| - SLOTS <= i && y in qs[i];
      assert y in ps[i+d];
    }
  }

  /** What is the greatest since then is the greatest of the whole window unless something before was greater. */
  lemma GreatestOfBoth(ps: Grouped, qs: Grouped, t: int8)
    requires EndsIn(ps, qs) && WindowGreatest(qs, t)
    ensures WindowGreatest(ps, t) <==> !LostAbove(ps, qs)
  {
    hide InWindow, Lost, EndsIn;
    forall y: int8 ensures InWindow(ps, y) <==> InWindow(qs, y) || Lost(ps, |qs|, y) {
      WindowParts(ps, qs, y);
    }
  }

  lemma LeastOfBoth(ps: Grouped, qs: Grouped, t: int8)
    requires EndsIn(ps, qs) && WindowLeast(qs, t)
    ensures WindowLeast(ps, t) <==> !LostBelow(ps, qs)
  {
    hide InWindow, Lost, EndsIn;
    forall y: int8 ensures InWindow(ps, y) <==> InWindow(qs, y) || Lost(ps, |qs|, y) {
      WindowParts(ps, qs, y);
    }
  }

  /** Once five rotations have passed since the slots started afresh, the window holds nothing from before. */
  lemma NothingLost(ps: Grouped, n: nat, y: int8)
    requires n >= SLOTS
    ensures !Lost(ps, n, y)
  {
  }

  lemma {:induction false} HighestOfAll(r: Row, s: seq<Event>, ps: Grouped)
    requires Known(r, s, ps) && s != []
    ensures var qs := Periods(s);
            WindowGreatest(ps, Highest(r.highs)) <==> MaximumKept(ps, qs)
  {
    var qs, m, t := Periods(s), s[0].m, Highest(r.highs);
    HighestOf(r, m, qs);
    hide Summed, Periods, AboveAll;
    if WindowGreatest(qs, t) {
      GreatestOfBoth(ps, qs, t);
      WindowParts(ps, qs, t);
      hide WindowGreatest, LostAbove;
      assert InWindow(ps, t);
    } else {
      assert m in qs[0];
      assert InWindow(qs, m) || |qs| > SLOTS;
      forall y: int8 ensures !InWindow(ps, y) {
        WindowParts(ps, qs, y);
        NothingLost(ps, |qs|, y);
      }
    }
  }

  lemma {:induction false} LowestOfAll(r: Row, s: seq<Event>, ps: Grouped)
    requires Known(r, s, ps) && s != []
    ensures var qs := Periods(s);
            && (WindowLeast(ps, Lowest(r.lows)) <==> MinimumKept(ps, qs))
            && (Skipped(qs) ==> Lowest(r.lows) == UNSET)
  {
    var qs, m, t := Periods(s), s[0].m, Lowest(r.lows);
    LowestOf(r, m, qs);
    if Skipped(qs) {
      if InWindow(ps, t) {
        WindowIsSet(ps, t);
      }
    } else {
      LeastOfBoth(ps, qs, t);
    }
  }

  /** After any run from the start: the highest slot is the greatest reading of the current and the previous five
      periods exactly when there is one and none from before the slots last started afresh lies above all since.
      The lowest slot is the least one exactly when no period of the window since then went by, or is going by,
      without a reading, and none from before lies below all since; it is -128 if a period was skipped. */
  lemma {:induction false} ExtremesIff(es: seq<Event>)
    requires Proper(es)
    ensures var (ps, qs, out) := (Periods(es), Periods(Since(es)), After(FRESH, es));
            && (WindowGreatest(ps, Highest(out.highs)) <==> MaximumKept(ps, qs))
            && (WindowLeast(ps, Lowest(out.lows)) <==> MinimumKept(ps, qs))
            && (Skipped(qs) ==> Lowest(out.lows) == UNSET)
  {
    KnownAfter(es);
    var r, s, ps := After(FRESH, es), Since(es), Periods(es);
    hide Summed;
    if s == [] {
      NothingShown();
      assert Periods(s) == [[]];
      SkippedWith(Periods(s), 0);
      hide After, Since, Periods;
      assert forall y: int8 :: !InWindow(ps, y);
    } else {
      hide After, Since, Periods, Known, WindowLeast, WindowGreatest, LostAbove, LostBelow;
      HighestOfAll(r, s, ps);
      LowestOfAll(r, s, ps);
    }
  }

  lemma NothingShown()
    ensures Highest(FRESH.highs) == UNSET == Lowest(FRESH.lows)
  {
    hide Highest, Lowest;
  }

  // ----- While nothing is wiped -----

  lemma {:induction false} AfterAppend(r: Row, a: seq<Event>, b: seq<Event>)
    ensures After(r, a + b) == After(After(r, a), b)
  {
    hide Apply;
    if b == [] {
      assert a + b == a;
    } else {
      assert (a + b)[..|a + b|-1] == a + b[..|b|-1];
      AfterAppend(r, a, b[..|b|-1]);
    }
  }

  lemma {:induction false} SinceNothing(idle: seq<Event>)
    requires forall k :: 0 <= k < |idle| ==> idle[k].Rotation?
    ensures Since(idle) == []
  {
    if idle == [] {
    } else {
      SinceNothing(idle[..|idle|-1]);
    }
  }

  lemma {:induction false} SinceTheFirst(idle: seq<Event>, es: seq<Event>)
    requires forall k :: 0 <= k < |idle| ==> idle[k].Rotation?
    requires es != [] && es[0].Reading? && NoWipe(Periods(es))
    ensures Since(idle + es) == es
  {
    var n := |es| - 1;
    var rest := es[..n];
    assert (idle + es)[..|idle|+n] == idle + rest;
    if n == 0 {
      assert idle + rest == idle;
      SinceNothing(idle);
      SinceOneMore(idle + es);
      hide Since, Periods, NoWipe;
      assert es == [es[0]];
    } else {
      var ps, qs := Periods(rest), Periods(es);
      assert qs == Noted(ps, es[n]);
      hide Periods, NoWipe, OldestSkipped, Noted;
      UnwipedBefore(ps, es[n]);
      SinceTheFirst(idle, rest);
      SinceOneMore(idle + es);
      hide Since;
      assert es == rest + [es[n]];
    }
  }

  lemma {:induction false} SinceOneMore(es: seq<Event>)
    requires es != []
    ensures var (before, e) := (Since(es[..|es|-1]), es[|es|-1]);
            Since(es) == if e.Reading? && (before == [] || OldestSkipped(Periods(before))) then [e]
                         else if before == [] then [] else before + [e]
  {
    hide OldestSkipped, Periods;
  }

  lemma UnwipedBefore(ps: Grouped, e: Event)
    requires NoWipe(Noted(ps, e))
    ensures NoWipe(ps) && (e.Reading? ==> !OldestSkipped(ps))
  {
    var more := Noted(ps, e);
    assert forall i :: 0 <= i < |ps| - 1 ==> more[i] == ps[i];
    assert e.Rotation? ==> more[|ps|-1] == ps[|ps|-1];
    if e.Reading? {
      assert more[|more|-1] != [];
    }
    forall i | SLOTS - 1 <= i < |ps| && ps[i] != [] ensures ps[i-(SLOTS-1)] != [] {
      assert more[i] != [];
      assert more[i-(SLOTS-1)] != [];
    }
  }

  /** As long as no reading falls into a period whose fifth predecessor had none, the highest slot is right
      exactly when the window holds a reading, and the lowest one exactly when no period of the window since the
      first reading is without one.  Rotations before the first reading make no difference. */
  lemma {:induction false} UnwipedExtremesIff(idle: seq<Event>, es: seq<Event>)
    requires forall k :: 0 <= k < |idle| ==> idle[k].Rotation?
    requires es != [] && es[0].Reading? && Proper(es) && NoWipe(Periods(es))
    ensures var (ps, out) := (Periods(es), After(FRESH, idle + es));
            && (WindowGreatest(ps, Highest(out.highs)) <==> HasReading(ps))
            && (WindowLeast(ps, Lowest(out.lows)) <==> !Skipped(ps))
  {
    assert Proper(idle + es);
    KnownAfter(idle + es);
    SinceTheFirst(idle, es);
    var r, m, ps := After(FRESH, idle + es), es[0].m, Periods(es);
    hide After, Periods, Since, Summed, AllSet, WindowGreatest, WindowLeast, Skipped, InWindow, EndsIn, NoWipe;
    LowestOf(r, m, ps);
    HighestOf(r, m, ps);
  }

  // ----- At a wiping reading, and after -----

  /** With only m since, being above or below all since is being above or below m. */
  lemma OnlyOne(ps: Grouped, qs: Grouped, m: int8)
    requires qs == [[m]] && EndsIn(ps, qs)
    ensures InWindow(ps, m) && !Skipped(qs)
    ensures (forall y: int8 :: InWindow(ps, y) ==> y <= m) <==> !LostAbove(ps, qs)
    ensures (forall y: int8 :: InWindow(ps, y) ==> m <= y) <==> !LostBelow(ps, qs)
  {
    forall y: int8 ensures InWindow(qs, y) <==> y == m {
      if y == m {
        assert y in qs[0];
      }
    }
    forall y: int8 ensures InWindow(ps, y) <==> y == m || Lost(ps, 1, y) {
      WindowParts(ps, qs, y);
    }
    hide InWindow, Lost, EndsIn;
    forall y: int8 ensures (AboveAll(qs, y) <==> m < y) && (BelowAll(qs, y) <==> y < m) {
      assert InWindow(qs, m);
    }
    hide AboveAll, BelowAll;
  }

  /** When a reading m has just wiped the slots, they are right exactly when no reading of the window lies beyond
      m. */
  lemma {:induction false} WipeIff(es: seq<Event>, m: int8)
    requires Proper(es) && Since(es) == [Reading(m)]
    ensures var (ps, out) := (Periods(es), After(FRESH, es));
            && (WindowGreatest(ps, Highest(out.highs)) <==> forall y: int8 :: InWindow(ps, y) ==> y <= m)
            && (WindowLeast(ps, Lowest(out.lows)) <==> forall y: int8 :: InWindow(ps, y) ==> m <= y)
  {
    hide After, Periods, Since, Summed, WindowGreatest, WindowLeast, InWindow, Lost, EndsIn, Skipped, LostAbove,
         LostBelow;
    ExtremesIff(es);
    KnownAfter(es);
    PeriodsOfOne(m);
    OnlyOne(Periods(es), [[m]], m);
  }

  /** Five rotations later the window holds nothing from before, and what was wiped no longer matters. */
  lemma {:induction false} RightAgainIff(es: seq<Event>)
    requires Proper(es) && |Periods(Since(es))| >= SLOTS
    ensures var (ps, out) := (Periods(es), After(FRESH, es));
            && (WindowGreatest(ps, Highest(out.highs)) <==> HasReading(ps))
            && (WindowLeast(ps, Lowest(out.lows)) <==> !Skipped(ps))
  {
    ExtremesIff(es);
    KnownAfter(es);
    var ps, qs := Periods(es), Periods(Since(es));
    assert Since(es) != [] by { assert Periods([]) == [[]]; }
    hide After, Periods, Since, Summed, WindowGreatest, WindowLeast, InWindow, EndsIn, Skipped, AboveAll, BelowAll;
    forall y: int8 ensures !Lost(ps, |qs|, y) {
      NothingLost(ps, |qs|, y);
    }
    SkippedEnd(ps, qs);
  }

  lemma SkippedEnd(ps: Grouped, qs: Grouped)
    requires EndsIn(ps, qs) && |qs| >= SLOTS
    ensures Skipped(ps) <==> Skipped(qs)
  {
    var d: nat := |ps| - |qs|;
    hide EndsIn, Skipped;
    if Skipped(ps) {
      var i := SkippedAt(ps);
      EndAt(ps, qs, i - d);
      SkippedWith(qs, i - d);
    }
    if Skipped(qs) {
      var i := SkippedAt(qs);
      EndAt(ps, qs, i);
      SkippedWith(ps, i + d);
    }
  }

  lemma SkippedAt(ps: Grouped) returns (i: nat)
    requires Skipped(ps)
    ensures i < |ps| && |ps| - SLOTS <= i && ps[i] == []
  {
    i :| 0 <= i < |ps| && |ps| - SLOTS <= i && ps[i] == [];
  }

  lemma SkippedWith(ps: Grouped, i: nat)
    requires i < |ps| && |ps| - SLOTS <= i && ps[i] == []
    ensures Skipped(ps)
  {
  }

  // ----- Runs with a period without a reading -----

  /** The low and the high slots are unset together, so one of them tells for both. */
  ghost predicate InStep(r: Row)
  {
    forall j :: 0 <= j < SLOTS ==> (r.lows[j] == UNSET <==> r.highs[j] == UNSET)
  }

  lemma {:induction false} StaysInStep(r: Row, es: seq<Event>)
    requires InStep(r) && Proper(es)
    ensures InStep(After(r, es))
  {
    if es == [] {
    } else {
      StaysInStep(r, es[..|es|-1]);
      hide After;
      assert InStep(Apply(After(r, es[..|es|-1]), es[|es|-1]));
    }
  }

  /** A reading that finds the oldest slot unset wipes out all five periods before it. */
  lemma Wiped(r: Row, m: int8)
    requires OldestUnset(r)
    ensures Lowest(Read(r, m).lows) == m == Highest(Read(r, m).highs)
  {
    hide Lowest, Highest;
  }

  lemma {:induction false} OneMore(r: Row, es: seq<Event>, e: Event)
    ensures After(r, es + [e]) == Apply(After(r, es), e)
    ensures Periods(es + [e]) == Noted(Periods(es), e)
  {
    assert (es + [e])[..|es|] == es;
  }

  function SixSlots(a: int8, b: int8, c: int8, d: int8, e: int8, f: int8): Row {
    Row([a, b, c, d, e, f], [a, b, c, d, e, f])
  }

  lemma SlotsTurn(a: int8, b: int8, c: int8, d: int8, e: int8, f: int8)
    ensures Apply(SixSlots(a, b, c, d, e, f), Rotation) == SixSlots(UNSET, a, b, c, d, e)
  {
  }

  function Gap(a: int8, x: int8): seq<Event> { [Reading(a), Rotation, Rotation, Reading(x)] }

  function GapLater(a: int8, x: int8): seq<Event> { Gap(a, x) + [Rotation] + [Rotation] + [Rotation] + [Rotation] }

  lemma AfterGap(a: int8, x: int8)
    requires UNSET < a && UNSET < x
    ensures After(FRESH, Gap(a, x)) == SixSlots(x, UNSET, a, a, a, a) && Periods(Gap(a, x)) == [[a], [], [x]]
  {
    var e1 := [] + [Reading(a)];
    var e2 := e1 + [Rotation];
    var e3 := e2 + [Rotation];
    assert Gap(a, x) == e3 + [Reading(x)];
    assert After(FRESH, []) == FRESH && Periods([]) == [[]];
    OneMore(FRESH, [], Reading(a));
    OneMore(FRESH, e1, Rotation);
    OneMore(FRESH, e2, Rotation);
    OneMore(FRESH, e3, Reading(x));
    FirstOfPeriod([[]], a);
    FirstOfPeriod(Periods(e3), x);
    SlotsTurn(a, a, a, a, a, a);
    SlotsTurn(UNSET, a, a, a, a, a);
    hide After, Periods;
    assert Periods(e3) == [[a], [], []];
  }

  lemma AfterGapLater(a: int8, x: int8)
    requires UNSET < a && UNSET < x
    ensures After(FRESH, GapLater(a, x)) == SixSlots(UNSET, UNSET, UNSET, UNSET, x, UNSET)
    ensures Periods(GapLater(a, x)) == [[a], [], [x], [], [], [], []]
  {
    var e0 := Gap(a, x);
    AfterGap(a, x);
    OneMore(FRESH, e0, Rotation);
    OneMore(FRESH, e0 + [Rotation], Rotation);
    OneMore(FRESH, e0 + [Rotation] + [Rotation], Rotation);
    OneMore(FRESH, e0 + [Rotation] + [Rotation] + [Rotation], Rotation);
    SlotsTurn(x, UNSET, a, a, a, a);
    SlotsTurn(UNSET, x, UNSET, a, a, a);
    SlotsTurn(UNSET, UNSET, x, UNSET, a, a);
    SlotsTurn(UNSET, UNSET, UNSET, x, UNSET, a);
    hide After, Periods, Gap;
  }

  /** One period without a reading: the lowest slot stays at -128 although the current period has a reading. */
  lemma GapHidesMinimum(a: int8, x: int8)
    requires UNSET < a && UNSET < x
    ensures Lowest(After(FRESH, Gap(a, x)).lows) == UNSET
  {
    AfterGap(a, x);
    hide After, Lowest;
    var lows := After(FRESH, Gap(a, x)).lows;
    assert Lowest(lows) <= lows[1];
  }

  /** And five periods later readings of the window go missing. */
  lemma GapLosesReadings(a: int8, x: int8, y: int8)
    requires UNSET < a && UNSET < y < x
    ensures var es := GapLater(a, x) + [Reading(y)];
            Proper(es) && InWindow(Periods(es), x) && Highest(After(FRESH, es).highs) == y
  {
    var e := GapLater(a, x);
    AfterGapLater(a, x);
    OneMore(FRESH, e, Reading(y));
    hide After, Periods, Highest;
    Wiped(After(FRESH, e), y);
    var ps := Periods(e + [Reading(y)]);
    assert |ps| == 7 && ps[2] == [x];
  }
}
