/**
 The thermometers in milliseconds, minutes and degrees: what one poll does, when a conversion is read, and which
 temperatures the numbers shown stand for.
 */
module SensorLaws {
  import opened Wrappers
  import opened MinMaxWindow
  import opened SensorBus

  // ----- One event in the slots -----

  /** A rotation moves the slots down and opens a period. */
  lemma {:induction false} RotationInNumbers(es: seq<Event>)
    ensures var (r, ps, next) := (After(FRESH, es), Periods(es), es + [Rotation]);
            && After(FRESH, next).lows == [-128] + r.lows[..5] && After(FRESH, next).highs == [-128] + r.highs[..5]
            && Periods(next) == ps + [[]] && Rotations(next) == Rotations(es) + 1
            && Since(next) == if Since(es) == [] then [] else Since(es) + [Rotation]
  {
    var next := es + [Rotation];
    assert next[..|es|] == es;
    hide OldestSkipped;
  }

  /** A reading that finds the oldest slot unset goes into all six; any other goes into the first one, if it lies
      below the lowest or above the highest of the period. */
  lemma {:induction false} ReadingInNumbers(es: seq<Event>, m: int8)
    ensures var (r, ps, next) := (After(FRESH, es), Periods(es), es + [Reading(m)]);
            && After(FRESH, next).lows == (if r.lows[5] == -128 then [m, m, m, m, m, m]
                                           else if r.lows[0] == -128 || m < r.lows[0] then [m] + r.lows[1..]
                                           else r.lows)
            && After(FRESH, next).highs == (if r.highs[5] == -128 then [m, m, m, m, m, m]
                                            else if m > r.highs[0] then [m] + r.highs[1..] else r.highs)
            && Periods(next) == ps[..|ps|-1] + [ps[|ps|-1] + [m]] && Rotations(next) == Rotations(es)
  {
    OneMore(FRESH, es, Reading(m));
    RotationsMore(es, Reading(m));
    hide After, Periods, Rotations;
    OneReading(After(FRESH, es), m);
    hide Read;
  }

  lemma OneReading(r: Row, m: int8)
    ensures Read(r, m).lows == if r.lows[5] == -128 then [m, m, m, m, m, m]
                               else if r.lows[0] == -128 || m < r.lows[0] then [m] + r.lows[1..] else r.lows
    ensures Read(r, m).highs == if r.highs[5] == -128 then [m, m, m, m, m, m]
                                else if m > r.highs[0] then [m] + r.highs[1..] else r.highs
  {
    assert r.lows[0 := m] == [m] + r.lows[1..] && r.highs[0 := m] == [m] + r.highs[1..];
  }

  /** The slots start afresh at the first reading, and at one that comes five rotations after a period without any. */
  lemma {:induction false} AfreshInNumbers(es: seq<Event>, m: int8)
    ensures var (s, qs) := (Since(es), Periods(Since(es)));
            Since(es + [Reading(m)]) == if s == [] || (|qs| >= 6 && qs[|qs|-6] == []) then [Reading(m)]
                                        else s + [Reading(m)]
  {
    assert (es + [Reading(m)])[..|es|] == es;
    hide Periods;
  }

  lemma NothingYet()
    ensures After(FRESH, []) == Row([-128, -128, -128, -128, -128, -128], [-128, -128, -128, -128, -128, -128])
    ensures Periods([]) == [[]] && Since([]) == [] && Rotations([]) == 0 && Ticks([]) == 0
    ensures ControlAfter([]) == Control(false, 0, 0)
  {
  }

  /** The highest slot is the greatest reading of the last six periods exactly when they hold one, and none of the
      periods before `qs`, the ones since the slots last started afresh, lies above all since. */
  lemma {:induction false} MaximumInFull(es: seq<Event>)
    requires forall k :: 0 <= k < |es| && es[k].Reading? ==> es[k].m > -128
    ensures var (ps, qs, t) := (Periods(es), Periods(Since(es)), Highest(After(FRESH, es).highs));
            && (exists i :: 0 <= i < |ps| && |ps| - 6 <= i && t in ps[i])
            && (forall i, y :: 0 <= i < |ps| && |ps| - 6 <= i && y in ps[i] ==> y <= t)
            <==>
            && (exists i :: 0 <= i < |ps| && |ps| - 6 <= i && ps[i] != [])
            && !exists i, y :: 0 <= i < |ps| - |qs| && |ps| - 6 <= i && y in ps[i]
                 && forall j, x :: 0 <= j < |qs| && |qs| - 6 <= j && x in qs[j] ==> x < y
  {
    ExtremesIff(es);
    hide Periods, Since, After, Highest, Lowest;
    MaximumUnfolded(Periods(es), Periods(Since(es)), Highest(After(FRESH, es).highs));
  }

  lemma {:induction false} MaximumUnfolded(ps: Grouped, qs: Grouped, t: int8)
    ensures WindowGreatest(ps, t) <==>
              && (exists i :: 0 <= i < |ps| && |ps| - 6 <= i && t in ps[i])
              && (forall i, y :: 0 <= i < |ps| && |ps| - 6 <= i && y in ps[i] ==> y <= t)
    ensures MaximumKept(ps, qs) <==>
              && (exists i :: 0 <= i < |ps| && |ps| - 6 <= i && ps[i] != [])
              && !exists i, y :: 0 <= i < |ps| - |qs| && |ps| - 6 <= i && y in ps[i]
                   && forall j, x :: 0 <= j < |qs| && |qs| - 6 <= j && x in qs[j] ==> x < y
  {
    if i :| 0 <= i < |ps| && |ps| - 6 <= i && ps[i] != [] {
      assert InWindow(ps, ps[i][0]);
    }
    if WindowGreatest(ps, t) {
      forall i, y | 0 <= i < |ps| && |ps| - 6 <= i && y in ps[i] ensures y <= t {
        assert InWindow(ps, y);
      }
    }
    if LostAbove(ps, qs) {
      var y: int8 :| Lost(ps, |qs|, y) && AboveAll(qs, y);
      forall j, x | 0 <= j < |qs| && |qs| - 6 <= j && x in qs[j] ensures x < y {
        assert InWindow(qs, x);
      }
    }
    if i, y :| && 0 <= i < |ps| - |qs| && |ps| - 6 <= i && y in ps[i]
               && forall j, x :: 0 <= j < |qs| && |qs| - 6 <= j && x in qs[j] ==> x < y
    {
      assert Lost(ps, |qs|, y) && AboveAll(qs, y);
    }
  }

  /** The lowest slot is the least reading of the last six periods exactly when none of those since the slots last
      started afresh is without a reading, and none of the periods before them lies below all since. */
  lemma {:induction false} MinimumInFull(es: seq<Event>)
    requires forall k :: 0 <= k < |es| && es[k].Reading? ==> es[k].m > -128
    ensures var (ps, qs, t) := (Periods(es), Periods(Since(es)), Lowest(After(FRESH, es).lows));
            && (exists i :: 0 <= i < |ps| && |ps| - 6 <= i && t in ps[i])
            && (forall i, y :: 0 <= i < |ps| && |ps| - 6 <= i && y in ps[i] ==> t <= y)
            <==>
            && (forall i :: 0 <= i < |qs| && |qs| - 6 <= i ==> qs[i] != [])
            && !exists i, y :: 0 <= i < |ps| - |qs| && |ps| - 6 <= i && y in ps[i]
                 && forall j, x :: 0 <= j < |qs| && |qs| - 6 <= j && x in qs[j] ==> y < x
  {
    ExtremesIff(es);
    hide Periods, Since, After, Highest, Lowest;
    MinimumUnfolded(Periods(es), Periods(Since(es)), Lowest(After(FRESH, es).lows));
  }

  lemma {:induction false} MinimumUnfolded(ps: Grouped, qs: Grouped, t: int8)
    ensures WindowLeast(ps, t) <==>
              && (exists i :: 0 <= i < |ps| && |ps| - 6 <= i && t in ps[i])
              && (forall i, y :: 0 <= i < |ps| && |ps| - 6 <= i && y in ps[i] ==> t <= y)
    ensures MinimumKept(ps, qs) <==>
              && (forall i :: 0 <= i < |qs| && |qs| - 6 <= i ==> qs[i] != [])
              && !exists i, y :: 0 <= i < |ps| - |qs| && |ps| - 6 <= i && y in ps[i]
                   && forall j, x :: 0 <= j < |qs| && |qs| - 6 <= j && x in qs[j] ==> y < x
  {
    if WindowLeast(ps, t) {
      forall i, y | 0 <= i < |ps| && |ps| - 6 <= i && y in ps[i] ensures t <= y {
        assert InWindow(ps, y);
      }
    }
    if LostBelow(ps, qs) {
      var y: int8 :| Lost(ps, |qs|, y) && BelowAll(qs, y);
      forall j, x | 0 <= j < |qs| && |qs| - 6 <= j && x in qs[j] ensures y < x {
        assert InWindow(qs, x);
      }
    }
    if i, y :| && 0 <= i < |ps| - |qs| && |ps| - 6 <= i && y in ps[i]
               && forall j, x :: 0 <= j < |qs| && |qs| - 6 <= j && x in qs[j] ==> y < x
    {
      assert Lost(ps, |qs|, y) && BelowAll(qs, y);
    }
  }

  // ----- One poll -----

  /** A conversion is read at the first poll more than 188 ms after it was started; while none is under way, one is
      started unless the last was less than the asked-for seconds ago; every 240th minute the slots turn. */
  lemma BusPoll(c: Control, i: Input)
    ensures var r := NextControl(c, i);
            var elapsed := (i.now - c.lastConv) % 0x1_0000_0000;
            && r.minMaxCount == (if !i.tick then c.minMaxCount else if c.minMaxCount + 1 >= 240 then 0
                                 else c.minMaxCount + 1)
            && (c.converting && elapsed > 188 ==> !r.converting && r.lastConv == c.lastConv && Done(c, i))
            && (c.converting && elapsed <= 188 ==> r.converting && r.lastConv == c.lastConv && !Done(c, i))
            && (!c.converting && i.secs > 0 && c.lastConv != 0 && elapsed <= i.secs * 1000 ==>
                  !r.converting && r.lastConv == c.lastConv && !Done(c, i))
            && (!c.converting && (i.secs == 0 || c.lastConv == 0 || elapsed > i.secs * 1000) ==>
                  && r.lastConv == i.now
                  && (r.converting <==> exists k :: 0 <= k < |i.present| && i.present[k])
                  && (Done(c, i) <==> forall k :: 0 <= k < |i.present| ==> !i.present[k]))
  {
  }

  /** A sensor that is a thermometer takes in what its conversion reads, and only then; a first failure is noted, a
      second one in a row leaves no temperature. */
  lemma SensorPoll(c: Control, s: Sensor, i: Input, k: nat)
    requires k < |i.present| && k < |i.readings|
    ensures var r := NextSensor(c, s, i, k);
            var takes := c.converting && (i.now - c.lastConv) % 0x1_0000_0000 > 188 && i.present[k];
            && (!takes ==> r.temp == s.temp && r.failing == s.failing)
            && (takes && i.readings[k].Some? ==> r.temp == i.readings[k] && !r.failing)
            && (takes && i.readings[k].None? ==> r.temp == (if s.failing then None else s.temp) && r.failing)
  {
    hide Rotated, Read, SlotOf, Turns;
  }

  /** The history of a sensor grows by a rotation with every 240th minute, then by what a conversion reads. */
  lemma {:induction false} HistoryOfPoll(n: nat, run: seq<Input>, i: Input, k: nat)
    requires AllValid(n, run) && i.Valid(n) && k < n
    ensures AllValid(n, run + [i])
    ensures var c := ControlAfter(run);
            var turns := i.tick && c.minMaxCount + 1 >= 240;
            var takes := c.converting && (i.now - c.lastConv) % 0x1_0000_0000 > 188 && i.present[k];
            && EventsAfter(n, run + [i], k) == EventsAfter(n, run, k) + (if turns then [Rotation] else [])
                 + (if takes && i.readings[k].Some? then [Reading(SlotOf(i.readings[k].value))] else [])
            && ConversionsAfter(n, run + [i], k)
                 == ConversionsAfter(n, run, k) + (if takes then [i.readings[k]] else [])
            && Ticks(run + [i]) == Ticks(run) + (if i.tick then 1 else 0)
  {
    assert (run + [i])[..|run|] == run;
    hide SlotOf, ControlAfter;
  }

  lemma {:induction false} DegreesOfPoll(n: nat, run: seq<Input>, i: Input, k: nat)
    requires AllValid(n, run) && i.Valid(n) && k < n
    ensures AllValid(n, run + [i])
    ensures var c, ds := ControlAfter(run), RoundedPeriods(n, run, k);
            var turned := if i.tick && c.minMaxCount + 1 >= 240 then ds + [[]] else ds;
            var takes := c.converting && (i.now - c.lastConv) % 0x1_0000_0000 > 188 && i.present[k];
            RoundedPeriods(n, run + [i], k)
              == if takes && i.readings[k].Some?
                 then turned[..|turned|-1] + [turned[|turned|-1] + [Round(i.readings[k].value)]] else turned
  {
    assert (run + [i])[..|run|] == run;
    hide Round, ControlAfter;
  }

  /** The nearest whole degree; one halfway between two is rounded away from zero. */
  lemma RoundIsNearest(t: real)
    ensures t - 0.5 <= Round(t) as real <= t + 0.5
    ensures Round(t) as real == t - 0.5 ==> t < 0.0
    ensures Round(t) as real == t + 0.5 ==> t > 0.0
  {
  }

  // ----- From the start of a conversion to its end -----

  /** A conversion started at one poll is not read by any number of polls within 188 ms of it, and is read by the first
      one after that. */
  lemma {:induction false} ConversionIsRead(n: nat, run: seq<Input>, first: Input, waits: seq<Input>, last: Input,
                                            k: nat)
    requires AllValid(n, run) && first.Valid(n) && AllValid(n, waits) && last.Valid(n) && k < n
    requires var c := ControlAfter(run);
             !c.converting && (first.secs == 0 || c.lastConv == 0
                               || (first.now - c.lastConv) % 0x1_0000_0000 > first.secs * 1000)
    requires first.present[k]
    requires forall j :: 0 <= j < |waits| ==> (waits[j].now - first.now) % 0x1_0000_0000 <= 188
    requires (last.now - first.now) % 0x1_0000_0000 > 188
    ensures AllValid(n, run + [first] + waits) && AllValid(n, run + [first] + waits + [last])
    ensures var (waiting, done) := (run + [first] + waits, run + [first] + waits + [last]);
            var (s, out) := (SensorAfter(n, run, k), SensorAfter(n, done, k));
            && ControlAfter(waiting).converting && ControlAfter(waiting).lastConv == first.now
            && SensorAfter(n, waiting, k).temp == s.temp && SensorAfter(n, waiting, k).failing == s.failing
            && !ControlAfter(done).converting && ControlAfter(done).lastConv == first.now
            && (last.present[k] && last.readings[k].Some? ==> out.temp == last.readings[k] && !out.failing)
            && (last.present[k] && last.readings[k].None? ==> out.temp == (if s.failing then None else s.temp))
            && (!last.present[k] ==> out.temp == s.temp && out.failing == s.failing)
            && Done(ControlAfter(waiting), last) && !Done(ControlAfter(run), first)
            && forall j :: 0 <= j < |waits| ==> !Done(ControlAfter(run + [first] + waits[..j]), waits[j])
  {
    hide NextControl, NextSensor, Done, ControlAfter, SensorAfter;
    RunMore(n, run, first);
    BusPoll(ControlAfter(run), first);
    SensorPoll(ControlAfter(run), SensorAfter(n, run, k), first, k);
    assert run + [first] + [] == run + [first];
    Waiting(n, run + [first], waits, k);
    var waiting := run + [first] + waits;
    RunMore(n, waiting, last);
    BusPoll(ControlAfter(waiting), last);
    SensorPoll(ControlAfter(waiting), SensorAfter(n, waiting, k), last, k);
  }

  lemma {:induction false} Waiting(n: nat, run: seq<Input>, waits: seq<Input>, k: nat)
    requires AllValid(n, run) && AllValid(n, waits) && k < n && ControlAfter(run).converting
    requires forall j :: 0 <= j < |waits| ==> (waits[j].now - ControlAfter(run).lastConv) % 0x1_0000_0000 <= 188
    ensures AllValid(n, run + waits)
    ensures ControlAfter(run + waits).converting && ControlAfter(run + waits).lastConv == ControlAfter(run).lastConv
    ensures SensorAfter(n, run + waits, k).temp == SensorAfter(n, run, k).temp
    ensures SensorAfter(n, run + waits, k).failing == SensorAfter(n, run, k).failing
    ensures forall j :: 0 <= j < |waits| ==> !Done(ControlAfter(run + waits[..j]), waits[j])
  {
    hide NextControl, NextSensor, Done, ControlAfter, SensorAfter;
    if waits == [] {
      assert run + waits == run;
    } else {
      var m := |waits| - 1;
      Waiting(n, run, waits[..m], k);
      assert run + waits == run + waits[..m] + [waits[m]];
      RunMore(n, run + waits[..m], waits[m]);
      BusPoll(ControlAfter(run + waits[..m]), waits[m]);
      SensorPoll(ControlAfter(run + waits[..m]), SensorAfter(n, run + waits[..m], k), waits[m], k);
      forall j | 0 <= j < |waits| ensures !Done(ControlAfter(run + waits[..j]), waits[j]) {
        assert j < m ==> waits[..m][..j] == waits[..j] && waits[..m][j] == waits[j];
      }
    }
  }

  /** Two polls: one that starts a conversion, and one after d ms. */
  lemma {:induction false} ReadAfter188ms(n: nat, run: seq<Input>, first: Input, last: Input, k: nat, d: nat, x: real)
    requires AllValid(n, run) && first.Valid(n) && last.Valid(n) && k < n && !ControlAfter(run).converting
    requires first.secs == 0 && first.present[k] && last.present[k] && last.readings[k] == Some(x)
    requires last.now == first.now + d && d < 0x1_0000_0000
    ensures AllValid(n, run + [first]) && AllValid(n, run + [first] + [last])
    ensures Done(ControlAfter(run + [first]), last) <==> d > 188
    ensures SensorAfter(n, run + [first] + [last], k).temp == if d > 188 then Some(x) else SensorAfter(n, run, k).temp
    ensures ControlAfter(run + [first] + [last]).converting <==> d <= 188
  {
    hide NextControl, NextSensor, Done, ControlAfter, SensorAfter;
    RunMore(n, run, first);
    BusPoll(ControlAfter(run), first);
    SensorPoll(ControlAfter(run), SensorAfter(n, run, k), first, k);
    RunMore(n, run + [first], last);
    BusPoll(ControlAfter(run + [first]), last);
    SensorPoll(ControlAfter(run + [first]), SensorAfter(n, run + [first], k), last, k);
  }

  /** Polls that ask for an interval start nothing and read nothing until that many seconds after the last
      conversion. */
  lemma {:induction false} NoneStartsTooSoon(n: nat, run: seq<Input>, polls: seq<Input>, k: nat)
    requires AllValid(n, run) && AllValid(n, polls) && k < n
    requires !ControlAfter(run).converting && ControlAfter(run).lastConv != 0
    requires forall j :: 0 <= j < |polls| ==> polls[j].secs > 0
    requires forall j :: 0 <= j < |polls| ==>
               (polls[j].now - ControlAfter(run).lastConv) % 0x1_0000_0000 <= polls[j].secs * 1000
    ensures AllValid(n, run + polls)
    ensures !ControlAfter(run + polls).converting && ControlAfter(run + polls).lastConv == ControlAfter(run).lastConv
    ensures SensorAfter(n, run + polls, k).temp == SensorAfter(n, run, k).temp
    ensures ConversionsAfter(n, run + polls, k) == ConversionsAfter(n, run, k)
  {
    hide ControlAfter, SensorAfter, ConversionsAfter;
    if polls == [] {
      assert run + polls == run;
    } else {
      var m := |polls| - 1;
      NoneStartsTooSoon(n, run, polls[..m], k);
      var before := run + polls[..m];
      assert run + polls == before + [polls[m]];
      NothingStarts(n, before, polls[m], k);
    }
  }

  lemma {:induction false} NothingStarts(n: nat, run: seq<Input>, i: Input, k: nat)
    requires AllValid(n, run) && i.Valid(n) && k < n
    requires !ControlAfter(run).converting && ControlAfter(run).lastConv != 0
    requires i.secs > 0 && (i.now - ControlAfter(run).lastConv) % 0x1_0000_0000 <= i.secs * 1000
    ensures AllValid(n, run + [i])
    ensures !ControlAfter(run + [i]).converting && ControlAfter(run + [i]).lastConv == ControlAfter(run).lastConv
    ensures SensorAfter(n, run + [i], k).temp == SensorAfter(n, run, k).temp
    ensures ConversionsAfter(n, run + [i], k) == ConversionsAfter(n, run, k)
  {
    hide NextControl, NextSensor, Done, ControlAfter, SensorAfter, EventsAfter, SlotOf, Ticks;
    RunMore(n, run, i);
    BusPoll(ControlAfter(run), i);
    SensorPoll(ControlAfter(run), SensorAfter(n, run, k), i, k);
    HistoryOfPoll(n, run, i, k);
    hide ConversionsAfter;
  }

  // ----- Over whole runs -----

  /** One failed conversion leaves the temperature before it, two in a row leave none; a sensor starts at 0. */
  lemma {:induction false} TemperatureInFull(n: nat, run: seq<Input>, k: nat)
    requires AllValid(n, run) && k < n
    ensures var (t, cs) := (SensorAfter(n, run, k).temp, ConversionsAfter(n, run, k));
            && (|cs| >= 2 && cs[|cs|-1] == cs[|cs|-2] == None ==> t == None)
            && (|cs| >= 1 && cs[|cs|-1].Some? ==> t == cs[|cs|-1])
            && (|cs| >= 2 && cs[|cs|-1] == None && cs[|cs|-2].Some? ==> t == cs[|cs|-2])
            && (|cs| == 0 || cs == [None] ==> t == Some(0.0))
  {
    NoTemperatureIffFailedTwice(n, run, k);
    hide SensorAfter, ConversionsAfter;
    var cs := ConversionsAfter(n, run, k);
    if |cs| >= 2 {
      assert cs[..|cs|-1][|cs|-2] == cs[|cs|-2];
    } else if |cs| == 1 {
      assert cs[..0] == [];
    }
  }

  /** What is shown, in degrees and 16 bits: the maximum is the warmest rounded temperature of the last six periods,
      and the minimum the coldest one, exactly under the conditions of the slots. */
  lemma {:induction false} ShownInFull(n: nat, run: seq<Input>, k: nat)
    requires AllValid(n, run) && k < n
    requires forall i, j :: 0 <= i < |RoundedPeriods(n, run, k)| && 0 <= j < |RoundedPeriods(n, run, k)[i]| ==>
               -39 <= RoundedPeriods(n, run, k)[i][j] <= 215
    ensures var (es, ds, row) := (EventsAfter(n, run, k), RoundedPeriods(n, run, k), SensorAfter(n, run, k).row);
            var (ps, qs) := (Periods(es), Periods(Since(es)));
            && ((exists i, x :: 0 <= i < |ds| && |ds| - 6 <= i && x in ds[i]
                   && (Highest(row.highs) + 88) % 0x1_0000 == x % 0x1_0000
                   && forall j, y :: 0 <= j < |ds| && |ds| - 6 <= j && y in ds[j] ==> y <= x)
                <==> MaximumKept(ps, qs))
            && ((exists i, x :: 0 <= i < |ds| && |ds| - 6 <= i && x in ds[i]
                   && (Lowest(row.lows) + 88) % 0x1_0000 == x % 0x1_0000
                   && forall j, y :: 0 <= j < |ds| && |ds| - 6 <= j && y in ds[j] ==> x <= y)
                <==> MinimumKept(ps, qs))
  {
    hide EventsAfter, RoundedPeriods, SensorAfter, Periods, Since, MaximumKept, MinimumKept, Highest, Lowest;
    ShownExtremesIff(n, run, k);
    var (ds, row) := (RoundedPeriods(n, run, k), SensorAfter(n, run, k).row);
    WarmestUnfolded(ds, Shown(Highest(row.highs)));
    ColdestUnfolded(ds, Shown(Lowest(row.lows)));
    hide ShowsWarmest, ShowsColdest;
  }

  lemma WarmestUnfolded(ds: Degrees, v: nat)
    ensures ShowsWarmest(ds, v) <==>
              exists i, x :: 0 <= i < |ds| && |ds| - 6 <= i && x in ds[i] && v == x % 0x1_0000
                && forall j, y :: 0 <= j < |ds| && |ds| - 6 <= j && y in ds[j] ==> y <= x
  {
    if ShowsWarmest(ds, v) {
      var x: int :| Warmest(ds, x) && v == x % 0x1_0000;
      var i :| 0 <= i < |ds| && |ds| - 6 <= i && x in ds[i];
      forall j, y | 0 <= j < |ds| && |ds| - 6 <= j && y in ds[j] ensures y <= x {
        assert DegreesInWindow(ds, y);
      }
    }
    if i, x :| && 0 <= i < |ds| && |ds| - 6 <= i && x in ds[i] && v == x % 0x1_0000
               && forall j, y :: 0 <= j < |ds| && |ds| - 6 <= j && y in ds[j] ==> y <= x
    {
      assert Warmest(ds, x);
    }
  }

  lemma ColdestUnfolded(ds: Degrees, v: nat)
    ensures ShowsColdest(ds, v) <==>
              exists i, x :: 0 <= i < |ds| && |ds| - 6 <= i && x in ds[i] && v == x % 0x1_0000
                && forall j, y :: 0 <= j < |ds| && |ds| - 6 <= j && y in ds[j] ==> x <= y
  {
    if ShowsColdest(ds, v) {
      var x: int :| Coldest(ds, x) && v == x % 0x1_0000;
      var i :| 0 <= i < |ds| && |ds| - 6 <= i && x in ds[i];
      forall j, y | 0 <= j < |ds| && |ds| - 6 <= j && y in ds[j] ensures x <= y {
        assert DegreesInWindow(ds, y);
      }
    }
    if i, x :| && 0 <= i < |ds| && |ds| - 6 <= i && x in ds[i] && v == x % 0x1_0000
               && forall j, y :: 0 <= j < |ds| && |ds| - 6 <= j && y in ds[j] ==> x <= y
    {
      assert Coldest(ds, x);
    }
  }

  /** The slots take in the rounded temperatures, period by period, less 88 degrees. */
  lemma {:induction false} SlotsInDegrees(n: nat, run: seq<Input>, k: nat)
    requires AllValid(n, run) && k < n
    requires forall i, j :: 0 <= i < |RoundedPeriods(n, run, k)| && 0 <= j < |RoundedPeriods(n, run, k)[i]| ==>
               -39 <= RoundedPeriods(n, run, k)[i][j] <= 215
    ensures var (ps, ds) := (Periods(EventsAfter(n, run, k)), RoundedPeriods(n, run, k));
            && |ps| == |ds| && (forall i :: 0 <= i < |ps| ==> |ps[i]| == |ds[i]|)
            && forall i, j :: 0 <= i < |ps| && 0 <= j < |ps[i]| ==> ps[i][j] == ds[i][j] - 88
  {
    hide EventsAfter, RoundedPeriods, Periods;
    EventsInDegrees(n, run, k);
  }
}
