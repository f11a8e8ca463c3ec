/** What polling does to the sensors of a bus, one sensor at a time: when the slots turn, when a conversion is
    read, and what a failed conversion leaves. */
module SensorBus {
  import opened Wrappers
  import opened MinMaxWindow

  const MAX_COUNT := 32
  const CONVTIME := 188
  const TICKS := 240
  const CLOCK := 0x1_0000_0000

  /** What polling keeps for the bus as a whole. */
  datatype Control = Control(converting: bool, lastConv: nat, minMaxCount: nat)

  /** What it keeps for a sensor; no temperature stands for not-a-number. */
  datatype Sensor = Sensor(temp: Option<real>, failing: bool, row: Row)

  /** What one poll is given: the interval asked for, whether another minute has passed, the clock, which sensors
      are thermometers, and what a conversion would read. */
  datatype Input = Input(secs: nat, tick: bool, now: nat, present: seq<bool>, readings: seq<Option<real>>) {
    predicate Valid(n: nat) { |present| == n && |readings| == n }
  }

  const START: Control := Control(false, 0, 0)
  const BLANK: Sensor := Sensor(Some(0.0), false, FRESH)

  // ----- Rounding -----

  function Round(t: real): int { if t >= 0.0 then (t + 0.5).Floor else -((-t + 0.5).Floor) }

  /** A temperature as it is kept in a slot; eight bits. */
  function SlotOf(t: real): int8 {
    var n := (Round(t) - TEMP_OFFSET) % 256;
    if n < 128 then n else n - 256
  }

  /** From -39 to 215 degrees no mark for no reading comes up, and the slot gives back the rounded
      temperature. */
  lemma SlotGivesBackIff(t: real)
    ensures SlotOf(t) > -128 && SlotOf(t) + 88 == Round(t) <==> -39 <= Round(t) <= 215
  {
    var n := Round(t) - TEMP_OFFSET;
    assert n == n / 256 * 256 + n % 256;
  }

  // ----- One sensor -----

  function Measured(s: Sensor, reading: Option<real>): Sensor {
    match reading
    case None => if s.failing then s.(temp := None) else s.(failing := true)
    case Some(t) => Sensor(Some(t), false, Read(s.row, SlotOf(t)))
  }

  // ----- The bus -----

  predicate Turns(c: Control, i: Input) { i.tick && c.minMaxCount + 1 >= TICKS }

  predicate AnyPresent(present: seq<bool>) { exists k :: 0 <= k < |present| && present[k] }

  predicate TooSoon(c: Control, i: Input) {
    i.secs != 0 && c.lastConv != 0 && (i.now - c.lastConv) % CLOCK <= i.secs * 1000
  }

  /** The conversion is over. */
  predicate Reads(c: Control, i: Input) { c.converting && (i.now - c.lastConv) % CLOCK > CONVTIME }

  function NextControl(c: Control, i: Input): Control {
    var count := if !i.tick then c.minMaxCount else if Turns(c, i) then 0 else c.minMaxCount + 1;
    if Reads(c, i) then Control(false, c.lastConv, count)
    else if c.converting || TooSoon(c, i) then Control(c.converting, c.lastConv, count)
    else Control(AnyPresent(i.present), i.now, count)
  }

  function NextSensor(c: Control, s: Sensor, i: Input, k: nat): (out: Sensor)
    requires k < |i.present| && k < |i.readings|
  {
    var turned := if Turns(c, i) then s.(row := Rotated(s.row)) else s;
    if Reads(c, i) && i.present[k] then Measured(turned, i.readings[k]) else turned
  }

  predicate Done(c: Control, i: Input) {
    Reads(c, i) || (!c.converting && !TooSoon(c, i) && !AnyPresent(i.present))
  }

  // ----- Runs -----

  predicate AllValid(n: nat, run: seq<Input>) { forall j :: 0 <= j < |run| ==> run[j].Valid(n) }

  function ControlAfter(run: seq<Input>): Control {
    if run == [] then START else NextControl(ControlAfter(run[..|run|-1]), run[|run|-1])
  }

  function SensorAfter(n: nat, run: seq<Input>, k: nat): (s: Sensor)
    requires AllValid(n, run) && k < n
  {
    if run == [] then BLANK
    else
      var (before, i) := (run[..|run|-1], run[|run|-1]);
      NextSensor(ControlAfter(before), SensorAfter(n, before, k), i, k)
  }

  lemma {:induction false} RunMore(n: nat, run: seq<Input>, i: Input)
    requires i.Valid(n)
    ensures AllValid(n, run) ==> AllValid(n, run + [i])
    ensures ControlAfter(run + [i]) == NextControl(ControlAfter(run), i)
    ensures AllValid(n, run) ==> forall k :: 0 <= k < n ==>
              SensorAfter(n, run + [i], k) == NextSensor(ControlAfter(run), SensorAfter(n, run, k), i, k)
  {
    hide NextControl, NextSensor;
    assert (run + [i])[..|run|] == run;
  }

  /** What happens to the slots of sensor k in one poll: they turn before a reading is taken in. */
  function EventsOf(c: Control, i: Input, k: nat): seq<Event>
    requires k < |i.present| && k < |i.readings|
  {
    (if Turns(c, i) then [Rotation] else [])
    + (if Reads(c, i) && i.present[k] && i.readings[k].Some? then [Reading(SlotOf(i.readings[k].value))] else [])
  }

  function EventsAfter(n: nat, run: seq<Input>, k: nat): seq<Event>
    requires AllValid(n, run) && k < n
  {
    if run == [] then []
    else
      var (before, i) := (run[..|run|-1], run[|run|-1]);
      EventsAfter(n, before, k) + EventsOf(ControlAfter(before), i, k)
  }

  /** The conversions of sensor k, failed ones included. */
  function ConversionsAfter(n: nat, run: seq<Input>, k: nat): seq<Option<real>>
    requires AllValid(n, run) && k < n
  {
    if run == [] then []
    else
      var (before, i) := (run[..|run|-1], run[|run|-1]);
      ConversionsAfter(n, before, k)
      + (if Reads(ControlAfter(before), i) && i.present[k] then [i.readings[k]] else [])
  }

  function Ticks(run: seq<Input>): nat {
    if run == [] then 0 else Ticks(run[..|run|-1]) + (if run[|run|-1].tick then 1 else 0)
  }

  function Rotations(es: seq<Event>): nat {
    if es == [] then 0 else Rotations(es[..|es|-1]) + (if es[|es|-1].Rotation? then 1 else 0)
  }

  lemma {:induction false} RotationsMore(es: seq<Event>, e: Event)
    ensures Rotations(es + [e]) == Rotations(es) + if e.Rotation? then 1 else 0
  {
    assert (es + [e])[..|es|] == es;
  }

  lemma Divided(n: nat)
    ensures (n + 1) / TICKS == n / TICKS + (if n % TICKS + 1 >= TICKS then 1 else 0)
    ensures (n + 1) % TICKS == if n % TICKS + 1 >= TICKS then 0 else n % TICKS + 1
  {
  }

  lemma {:induction false} MinutesCounted(run: seq<Input>)
    ensures ControlAfter(run).minMaxCount == Ticks(run) % 240
  {
    if run == [] {
    } else {
      MinutesCounted(run[..|run|-1]);
      Divided(Ticks(run[..|run|-1]));
      hide Reads, TooSoon, AnyPresent;
    }
  }

  lemma TurnsIff(c: Control, i: Input, ticks: nat)
    requires c.minMaxCount == ticks % TICKS
    ensures (ticks + if i.tick then 1 else 0) / TICKS == ticks / TICKS + if Turns(c, i) then 1 else 0
  {
    Divided(ticks);
  }

  /** The slots turn once for every 240 minutes that pass, whatever else polling does. */
  lemma {:induction false} TurnsEveryFourHours(n: nat, run: seq<Input>, k: nat)
    requires AllValid(n, run) && k < n
    ensures Rotations(EventsAfter(n, run, k)) == Ticks(run) / 240
  {
    hide Turns, Rotations, EventsOf, ControlAfter;
    if run == [] {
      assert Rotations([]) == 0 by { NoRotations(); }
    } else {
      var before, i := run[..|run|-1], run[|run|-1];
      TurnsEveryFourHours(n, before, k);
      MinutesCounted(before);
      TurnsIff(ControlAfter(before), i, Ticks(before));
      RotationsOfPoll(EventsAfter(n, before, k), ControlAfter(before), i, k);
    }
  }

  lemma NoRotations()
    ensures Rotations([]) == 0
  {
  }

  lemma {:induction false} RotationsOfPoll(es: seq<Event>, c: Control, i: Input, k: nat)
    requires k < |i.present| && k < |i.readings|
    ensures Rotations(es + EventsOf(c, i, k)) == Rotations(es) + if Turns(c, i) then 1 else 0
  {
    hide Turns, Reads, SlotOf, Rotations;
    var turned := es + (if Turns(c, i) then [Rotation] else []);
    if Turns(c, i) {
      RotationsMore(es, Rotation);
    } else {
      assert turned == es;
    }
    if Reads(c, i) && i.present[k] && i.readings[k].Some? {
      var e := Reading(SlotOf(i.readings[k].value));
      RotationsMore(turned, e);
      assert es + EventsOf(c, i, k) == turned + [e];
    } else {
      assert es + EventsOf(c, i, k) == turned;
    }
  }

  lemma {:induction false} NextRow(r: Row, es: seq<Event>)
    requires |es| <= 2
    ensures After(r, es)
         == if |es| == 0 then r else if |es| == 1 then Apply(r, es[0]) else Apply(Apply(r, es[0]), es[1])
  {
    hide Apply;
    assert After(r, []) == r;
    if |es| == 1 {
      assert es[..0] == [];
    } else if |es| == 2 {
      assert es[..1] == [es[0]] && es[..1][..0] == [];
    }
  }

  /** The slots of a sensor after any run are those its own readings and the turns lead to, from the start on. */
  lemma {:induction false} RowFollowsEvents(n: nat, run: seq<Input>, k: nat)
    requires AllValid(n, run) && k < n
    ensures SensorAfter(n, run, k).row == After(FRESH, EventsAfter(n, run, k))
  {
    if run == [] {
    } else {
      var before, i := run[..|run|-1], run[|run|-1];
      RowFollowsEvents(n, before, k);
      var c, s := ControlAfter(before), SensorAfter(n, before, k);
      var es := EventsOf(c, i, k);
      AfterAppend(FRESH, EventsAfter(n, before, k), es);
      NextRow(s.row, es);
      hide After, Rotated, Read, Turns, Reads, SlotOf, ControlAfter;
      assert SensorAfter(n, run, k).row == After(s.row, es);
    }
  }

  /** So over whole runs, for any sensor: the highest slot is its highest reading of the current and the previous
      five periods exactly when there is one and none from before the slots last started afresh lies above all
      since; the lowest slot its lowest one exactly when no period of the window since then was skipped, and none
      from before lies below all since. */
  lemma {:induction false} ExtremesOfRunIff(n: nat, run: seq<Input>, k: nat)
    requires AllValid(n, run) && k < n && Proper(EventsAfter(n, run, k))
    ensures var es := EventsAfter(n, run, k);
            var (ps, qs, row) := (Periods(es), Periods(Since(es)), SensorAfter(n, run, k).row);
            && (WindowGreatest(ps, Highest(row.highs)) <==> MaximumKept(ps, qs))
            && (WindowLeast(ps, Lowest(row.lows)) <==> MinimumKept(ps, qs))
  {
    RowFollowsEvents(n, run, k);
    hide EventsAfter, SensorAfter, Periods, After, Since, Proper;
    ExtremesIff(EventsAfter(n, run, k));
  }

  // ----- In degrees -----

  /** Rounded temperatures grouped by period, the current one last. */
  type Degrees = ds: seq<seq<int>> | |ds| >= 1 witness [[]]

  /** Those of sensor k. */
  function RoundedPeriods(n: nat, run: seq<Input>, k: nat): (ps: Degrees)
    requires AllValid(n, run) && k < n
  {
    if run == [] then [[]]
    else
      var (c, i) := (ControlAfter(run[..|run|-1]), run[|run|-1]);
      Taken(Turned(RoundedPeriods(n, run[..|run|-1], k), c, i), c, i, k)
  }

  function Turned(ps: Degrees, c: Control, i: Input): Degrees {
    if Turns(c, i) then ps + [[]] else ps
  }

  function Taken(ps: Degrees, c: Control, i: Input, k: nat): (out: Degrees)
    requires k < |i.present| && k < |i.readings|
  {
    if Reads(c, i) && i.present[k] && i.readings[k].Some? then
      ps[|ps|-1 := ps[|ps|-1] + [Round(i.readings[k].value)]]
    else ps
  }

  /** All temperatures are such that a slot can hold them. */
  ghost predicate InRange(ds: Degrees) {
    forall i, j :: 0 <= i < |ds| && 0 <= j < |ds[i]| ==> -39 <= ds[i][j] <= 215
  }

  /** The same readings, as slots hold them and in degrees. */
  ghost predicate SameReadings(ps: Grouped, ds: Degrees) {
    && |ps| == |ds|
    && (forall i :: 0 <= i < |ps| ==> |ps[i]| == |ds[i]|)
    && forall i, j :: 0 <= i < |ps| && 0 <= j < |ps[i]| ==> ps[i][j] + TEMP_OFFSET == ds[i][j]
  }

  lemma TurnedSame(ps: Grouped, ds: Degrees, c: Control, i: Input)
    requires SameReadings(ps, ds)
    ensures SameReadings(if Turns(c, i) then Noted(ps, Rotation) else ps, Turned(ds, c, i))
    ensures InRange(Turned(ds, c, i)) ==> InRange(ds)
  {
    hide Turns;
    assert forall j :: 0 <= j < |ds| ==> Turned(ds, c, i)[j] == ds[j];
  }

  lemma TakenSame(ps: Grouped, ds: Degrees, c: Control, i: Input, k: nat)
    requires SameReadings(ps, ds) && k < |i.present| && k < |i.readings| && InRange(Taken(ds, c, i, k))
    ensures var takes := Reads(c, i) && i.present[k] && i.readings[k].Some?;
            && SameReadings(if takes then Noted(ps, Reading(SlotOf(i.readings[k].value))) else ps, Taken(ds, c, i, k))
            && (takes ==> SlotOf(i.readings[k].value) > UNSET)
            && InRange(ds)
  {
    hide Reads, SlotOf, Round;
    if Reads(c, i) && i.present[k] && i.readings[k].Some? {
      var t, out, last := i.readings[k].value, Taken(ds, c, i, k), |ds| - 1;
      assert out[last][|ds[last]|] == Round(t);
      SlotGivesBackIff(t);
      forall a, b | 0 <= a < |ds| && 0 <= b < |ds[a]| ensures -39 <= ds[a][b] <= 215 {
        assert out[a][b] == ds[a][b];
      }
    }
  }

  lemma {:induction false} PeriodsOfPoll(es: seq<Event>, c: Control, i: Input, k: nat)
    requires k < |i.present| && k < |i.readings|
    ensures var turned := if Turns(c, i) then Noted(Periods(es), Rotation) else Periods(es);
            Periods(es + EventsOf(c, i, k))
              == if Reads(c, i) && i.present[k] && i.readings[k].Some?
                 then Noted(turned, Reading(SlotOf(i.readings[k].value))) else turned
  {
    hide Turns, Reads, SlotOf, Periods, Noted;
    var turned := es + (if Turns(c, i) then [Rotation] else []);
    if Turns(c, i) {
      PeriodsMore(es, Rotation);
    } else {
      assert turned == es;
    }
    if Reads(c, i) && i.present[k] && i.readings[k].Some? {
      var e := Reading(SlotOf(i.readings[k].value));
      PeriodsMore(turned, e);
      assert es + EventsOf(c, i, k) == turned + [e];
    } else {
      assert es + EventsOf(c, i, k) == turned;
    }
  }

  /** As long as all temperatures are in range, the slots take in exactly the rounded temperatures. */
  lemma {:induction false} EventsInDegrees(n: nat, run: seq<Input>, k: nat)
    requires AllValid(n, run) && k < n && InRange(RoundedPeriods(n, run, k))
    ensures Proper(EventsAfter(n, run, k))
    ensures SameReadings(Periods(EventsAfter(n, run, k)), RoundedPeriods(n, run, k))
  {
    hide Turns, Reads, SlotOf, Periods, Noted, SameReadings, InRange, Turned, Taken;
    if run == [] {
      assert SameReadings([[]], [[]]) by { NothingSame(); }
      assert Periods([]) == [[]] by { NothingGrouped(); }
    } else {
      var before, i := run[..|run|-1], run[|run|-1];
      var c, es, ds := ControlAfter(before), EventsAfter(n, before, k), RoundedPeriods(n, before, k);
      var mid := if Turns(c, i) then Noted(Periods(es), Rotation) else Periods(es);
      PeriodsOfPoll(es, c, i, k);
      hide ControlAfter;
      RangeBefore(ds, c, i, k);
      EventsInDegrees(n, before, k);
      TurnedSame(Periods(es), ds, c, i);
      TakenSame(mid, Turned(ds, c, i), c, i, k);
    }
  }

  lemma NothingSame()
    ensures SameReadings([[]], [[]])
  {
  }

  lemma NothingGrouped()
    ensures Periods([]) == [[]]
  {
  }

  lemma RangeBefore(ds: Degrees, c: Control, i: Input, k: nat)
    requires k < |i.present| && k < |i.readings| && InRange(Taken(Turned(ds, c, i), c, i, k))
    ensures InRange(ds)
  {
    hide Turns, Reads, Round;
    var out := Taken(Turned(ds, c, i), c, i, k);
    forall a, b | 0 <= a < |ds| && 0 <= b < |ds[a]| ensures -39 <= ds[a][b] <= 215 {
      assert out[a][b] == ds[a][b];
    }
  }

  predicate DegreesInWindow(ds: Degrees, x: int) {
    exists i :: 0 <= i < |ds| && |ds| - SLOTS <= i && x in ds[i]
  }

  ghost predicate Warmest(ds: Degrees, x: int) {
    DegreesInWindow(ds, x) && forall y :: DegreesInWindow(ds, y) ==> y <= x
  }

  ghost predicate Coldest(ds: Degrees, x: int) {
    DegreesInWindow(ds, x) && forall y :: DegreesInWindow(ds, y) ==> x <= y
  }

  /** The number shown is the warmest temperature of the window, in 16 bits. */
  ghost predicate ShowsWarmest(ds: Degrees, t: nat) { exists x :: Warmest(ds, x) && t == x % 0x1_0000 }

  ghost predicate ShowsColdest(ds: Degrees, t: nat) { exists x :: Coldest(ds, x) && t == x % 0x1_0000 }

  lemma WindowInDegrees(ps: Grouped, ds: Degrees, x: int8)
    requires SameReadings(ps, ds)
    ensures InWindow(ps, x) <==> DegreesInWindow(ds, x + TEMP_OFFSET)
  {
    if InWindow(ps, x) {
      var i :| 0 <= i < |ps| && |ps| - SLOTS <= i && x in ps[i];
      var j :| 0 <= j < |ps[i]| && ps[i][j] == x;
      assert ds[i][j] == x + TEMP_OFFSET;
    }
    if DegreesInWindow(ds, x + TEMP_OFFSET) {
      var i :| 0 <= i < |ds| && |ds| - SLOTS <= i && x + TEMP_OFFSET in ds[i];
      var j :| 0 <= j < |ds[i]| && ds[i][j] == x + TEMP_OFFSET;
      assert ps[i][j] == x;
    }
  }

  lemma DegreesAreSlots(ps: Grouped, ds: Degrees, y: int)
    requires SameReadings(ps, ds) && InRange(ds) && DegreesInWindow(ds, y)
    ensures -39 <= y <= 215
  {
  }

  lemma ExtremesInDegrees(ps: Grouped, ds: Degrees, x: int8)
    requires SameReadings(ps, ds) && InRange(ds)
    ensures WindowGreatest(ps, x) <==> Warmest(ds, x + TEMP_OFFSET)
    ensures WindowLeast(ps, x) <==> Coldest(ds, x + TEMP_OFFSET)
  {
    WindowInDegrees(ps, ds, x);
    forall y: int8 ensures InWindow(ps, y) <==> DegreesInWindow(ds, y + TEMP_OFFSET) {
      WindowInDegrees(ps, ds, y);
    }
    forall y | DegreesInWindow(ds, y) ensures InWindow(ps, y - TEMP_OFFSET) {
      DegreesAreSlots(ps, ds, y);
      WindowInDegrees(ps, ds, y - TEMP_OFFSET);
    }
    hide InWindow, DegreesInWindow, SameReadings, InRange;
  }

  /** A slot as it is shown: in degrees, in 16 bits. */
  function Shown(t: int8): nat { (t + TEMP_OFFSET) % 0x1_0000 }

  lemma ShownOnce(t: int8, x: int)
    requires -39 <= x <= 215
    ensures Shown(t) == x % 0x1_0000 <==> t + TEMP_OFFSET == x
  {
  }

  /** In degrees, over whole runs: what is shown as the maximum is the warmest rounded temperature of the current
      and the previous five periods exactly when there is one and none from before the slots last started afresh
      lies above all since; what is shown as the minimum is the coldest one exactly when no period of the window
      since then was skipped and none from before lies below all since. */
  lemma {:induction false} ShownExtremesIff(n: nat, run: seq<Input>, k: nat)
    requires AllValid(n, run) && k < n && InRange(RoundedPeriods(n, run, k))
    ensures var es, ds := EventsAfter(n, run, k), RoundedPeriods(n, run, k);
            var (ps, qs, row) := (Periods(es), Periods(Since(es)), SensorAfter(n, run, k).row);
            && (ShowsWarmest(ds, Shown(Highest(row.highs))) <==> MaximumKept(ps, qs))
            && (ShowsColdest(ds, Shown(Lowest(row.lows))) <==> MinimumKept(ps, qs))
  {
    hide EventsAfter, RoundedPeriods, SensorAfter, Periods, Since, Proper, SameReadings, InRange, MaximumKept,
         MinimumKept, ShowsWarmest, ShowsColdest;
    EventsInDegrees(n, run, k);
    ExtremesOfRunIff(n, run, k);
    var ds, row := RoundedPeriods(n, run, k), SensorAfter(n, run, k).row;
    OneWayToShow(Periods(EventsAfter(n, run, k)), ds, Highest(row.highs));
    OneWayToShow(Periods(EventsAfter(n, run, k)), ds, Lowest(row.lows));
  }

  lemma OneWayToShow(ps: Grouped, ds: Degrees, t: int8)
    requires SameReadings(ps, ds) && InRange(ds)
    ensures ShowsWarmest(ds, Shown(t)) <==> WindowGreatest(ps, t)
    ensures ShowsColdest(ds, Shown(t)) <==> WindowLeast(ps, t)
  {
    ExtremesInDegrees(ps, ds, t);
    hide WindowGreatest, WindowLeast, Shown;
    forall x | DegreesInWindow(ds, x) ensures Shown(t) == x % 0x1_0000 <==> t + TEMP_OFFSET == x {
      DegreesAreSlots(ps, ds, x);
      ShownOnce(t, x);
    }
    hide DegreesInWindow, SameReadings, InRange;
    if Warmest(ds, t + TEMP_OFFSET) {
      assert Shown(t) == (t + TEMP_OFFSET) % 0x1_0000;
    }
    if Coldest(ds, t + TEMP_OFFSET) {
      assert Shown(t) == (t + TEMP_OFFSET) % 0x1_0000;
    }
  }

  // ----- Failed conversions -----

  /** The last conversion that did not fail. */
  function LastGood(cs: seq<Option<real>>): real {
    if cs == [] then 0.0 else if cs[|cs|-1].Some? then cs[|cs|-1].value else LastGood(cs[..|cs|-1])
  }

  predicate FailedLast(cs: seq<Option<real>>) { cs != [] && cs[|cs|-1].None? }

  predicate FailedTwice(cs: seq<Option<real>>) { |cs| >= 2 && cs[|cs|-1].None? && cs[|cs|-2].None? }

  lemma {:induction false} ConversionsMore(cs: seq<Option<real>>, c: Option<real>)
    ensures LastGood(cs + [c]) == if c.Some? then c.value else LastGood(cs)
    ensures FailedLast(cs + [c]) <==> c.None?
    ensures FailedTwice(cs + [c]) <==> c.None? && FailedLast(cs)
  {
    assert (cs + [c])[..|cs|] == cs;
  }

  /** One failed conversion leaves the last good temperature standing; from the second one in a row on there is
      no temperature, until a conversion succeeds. */
  lemma {:induction false} NoTemperatureIffFailedTwice(n: nat, run: seq<Input>, k: nat)
    requires AllValid(n, run) && k < n
    ensures var (s, cs) := (SensorAfter(n, run, k), ConversionsAfter(n, run, k));
            && s.temp == (if FailedTwice(cs) then None else Some(LastGood(cs)))
            && (s.failing <==> FailedLast(cs))
  {
    if run == [] {
    } else {
      var before, i := run[..|run|-1], run[|run|-1];
      NoTemperatureIffFailedTwice(n, before, k);
      var c, cs := ControlAfter(before), ConversionsAfter(n, before, k);
      hide Rotated, Read, Turns, Reads, SlotOf, ControlAfter, LastGood, FailedLast, FailedTwice;
      if Reads(c, i) && i.present[k] {
        ConversionsMore(cs, i.readings[k]);
      } else {
        assert ConversionsAfter(n, run, k) == cs + [] == cs;
      }
    }
  }
}
