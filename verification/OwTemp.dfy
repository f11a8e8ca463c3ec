/** The thermometers of a node as they are polled: two tables of slots shifted in place, and a bit per sensor. */
module OwTemp {
  import opened Wrappers
  import opened MinMaxWindow
  import opened SensorBus

  type SensorNo = s: nat | s < MAX_COUNT

  function Bit(s: SensorNo): bv32 { (1 as bv32) << s }

  function Common(f: bv32, a: bv32): bv32 { f & a }

  function Plus(f: bv32, a: bv32): bv32 { f | a }

  function Minus(f: bv32, a: bv32): bv32 { f & !a }

  predicate Has(f: bv32, s: SensorNo) { Common(f, Bit(s)) != 0 }

  lemma BitIsSet(s: SensorNo)
    ensures Bit(s) != 0
  {
  }

  lemma BitsApart(s: SensorNo, t: SensorNo)
    requires s != t
    ensures Common(Bit(s), Bit(t)) == 0
  {
  }

  lemma OthersSet(f: bv32, a: bv32, b: bv32)
    requires Common(a, b) == 0
    ensures Common(Plus(f, a), b) == Common(f, b)
  {
  }

  lemma OthersCleared(f: bv32, a: bv32, b: bv32)
    requires Common(a, b) == 0
    ensures Common(Minus(f, a), b) == Common(f, b)
  {
  }

  lemma ItselfSet(f: bv32, a: bv32)
    ensures Common(Plus(f, a), a) == a
  {
  }

  lemma ItselfCleared(f: bv32, a: bv32)
    ensures Common(Minus(f, a), a) == 0
  {
  }

  lemma ChangedItself(f: bv32, s: SensorNo)
    ensures Has(Plus(f, Bit(s)), s) && !Has(Minus(f, Bit(s)), s)
  {
    hide Bit, Common, Plus, Minus;
    BitIsSet(s);
    ItselfSet(f, Bit(s));
    ItselfCleared(f, Bit(s));
  }

  lemma KeptOthers(f: bv32, s: SensorNo, t: SensorNo)
    requires s != t
    ensures Has(Plus(f, Bit(s)), t) <==> Has(f, t)
    ensures Has(Minus(f, Bit(s)), t) <==> Has(f, t)
  {
    hide Bit, Common, Plus, Minus;
    BitsApart(s, t);
    OthersSet(f, Bit(s), Bit(t));
    OthersCleared(f, Bit(s), Bit(t));
  }

  /** Setting or clearing the bit of one sensor leaves those of all others alone. */
  lemma BitChanged(f: bv32, s: SensorNo, t: SensorNo)
    ensures Has(Plus(f, Bit(s)), t) <==> s == t || Has(f, t)
    ensures Has(Minus(f, Bit(s)), t) <==> s != t && Has(f, t)
  {
    hide Bit, Has, Common, Plus, Minus;
    if s != t {
      KeptOthers(f, s, t);
    } else {
      ChangedItself(f, s);
    }
  }

  lemma NoBits(t: SensorNo)
    ensures !Has(0, t)
  {
  }

  function RowOf(a: array2<int8>, s: nat): (r: Slots)
    requires s < a.Length0 && a.Length1 == SLOTS
    reads a
    ensures forall j :: 0 <= j < SLOTS ==> r[j] == a[s, j]
  {
    [a[s, 0], a[s, 1], a[s, 2], a[s, 3], a[s, 4], a[s, 5]]
  }

  class Bus {
    const tempMax: nat
    const sensTemp: array<Option<real>>
    const sensMin: array2<int8>
    const sensMax: array2<int8>
    var failed: bv32
    var converting: bool
    var lastConv: nat
    var minMaxCount: nat
    // Every poll so far.
    ghost var run: seq<Input>

    ghost predicate Valid()
      reads this
    {
      && tempMax <= MAX_COUNT
      && sensTemp.Length == tempMax
      && sensMin.Length0 == tempMax && sensMin.Length1 == SLOTS
      && sensMax.Length0 == tempMax && sensMax.Length1 == SLOTS
      && sensMin != sensMax
    }

    ghost function Ctl(): Control
      reads this
    {
      Control(converting, lastConv, minMaxCount)
    }

    ghost function SensorAt(s: nat): (r: Sensor)
      requires Valid() && s < tempMax
      reads this, sensTemp, sensMin, sensMax
    {
      Sensor(sensTemp[s], Has(failed, s), Row(RowOf(sensMin, s), RowOf(sensMax, s)))
    }

    /** The state is what all polls so far lead to. */
    ghost predicate Tracked()
      requires Valid()
      reads this, sensTemp, sensMin, sensMax
    {
      && AllValid(tempMax, run)
      && Ctl() == ControlAfter(run)
      && forall s :: 0 <= s < tempMax ==> SensorAt(s) == SensorAfter(tempMax, run, s)
    }

    constructor (max: nat)
      ensures Valid() && fresh(sensTemp) && fresh(sensMin) && fresh(sensMax)
      ensures tempMax == (if max < 32 then max else 32) && Ctl() == Control(false, 0, 0)
      ensures forall s :: 0 <= s < tempMax ==> SensorAt(s) == BLANK
      ensures run == [] && Tracked()
    {
      var n := if max < MAX_COUNT then max else MAX_COUNT;
      tempMax := n;
      sensTemp := new Option<real>[n](_ => Some(0.0));
      sensMin := new int8[n, SLOTS]((_, _) => UNSET);
      sensMax := new int8[n, SLOTS]((_, _) => UNSET);
      failed, converting, lastConv, minMaxCount := 0, false, 0, 0;
      run := [];
      new;
      forall s | 0 <= s < tempMax ensures !Has(failed, s) {
        NoBits(s);
      }
      hide Has;
    }

    /** Shift the slots of one sensor by one. */
    method RotateSensor(s: nat)
      requires Valid() && s < tempMax
      modifies sensMin, sensMax
      ensures RowOf(sensMin, s) == [UNSET] + old(RowOf(sensMin, s))[..SLOTS-1]
      ensures RowOf(sensMax, s) == [UNSET] + old(RowOf(sensMax, s))[..SLOTS-1]
      ensures forall r, j :: 0 <= r < tempMax && 0 <= j < SLOTS && r != s ==>
                sensMin[r, j] == old(sensMin[r, j]) && sensMax[r, j] == old(sensMax[r, j])
    {
      var i := SLOTS - 1;
      while i > 0
        invariant 0 <= i < SLOTS
        invariant forall j :: i < j < SLOTS ==>
                    sensMin[s, j] == old(sensMin[s, j-1]) && sensMax[s, j] == old(sensMax[s, j-1])
        invariant forall j :: 0 <= j <= i ==>
                    sensMin[s, j] == old(sensMin[s, j]) && sensMax[s, j] == old(sensMax[s, j])
        invariant forall r, j :: 0 <= r < tempMax && 0 <= j < SLOTS && r != s ==>
                    sensMin[r, j] == old(sensMin[r, j]) && sensMax[r, j] == old(sensMax[r, j])
      {
        sensMin[s, i] := sensMin[s, i-1];
        sensMax[s, i] := sensMax[s, i-1];
        i := i - 1;
      }
      sensMin[s, 0] := UNSET;
      sensMax[s, 0] := UNSET;
    }

    method Rotate()
      requires Valid()
      modifies sensMin, sensMax
      ensures forall s :: 0 <= s < tempMax ==> SensorAt(s) == old(SensorAt(s)).(row := Rotated(old(SensorAt(s)).row))
    {
      hide Has;
      for s := 0 to tempMax
        invariant forall r :: 0 <= r < s ==> SensorAt(r) == old(SensorAt(r)).(row := Rotated(old(SensorAt(r)).row))
        invariant forall r :: s <= r < tempMax ==> SensorAt(r) == old(SensorAt(r))
      {
        RotateSensor(s);
      }
    }

    /** Keep a new minimum and maximum, in all slots if the oldest one is unset. */
    method Record(s: nat, m: int8)
      requires Valid() && s < tempMax
      modifies sensMin, sensMax
      ensures RowOf(sensMin, s) == Lowered(old(RowOf(sensMin, s)), m)
      ensures RowOf(sensMax, s) == Raised(old(RowOf(sensMax, s)), m)
      ensures forall r, j :: 0 <= r < tempMax && 0 <= j < SLOTS && r != s ==>
                sensMin[r, j] == old(sensMin[r, j]) && sensMax[r, j] == old(sensMax[r, j])
    {
      if sensMin[s, SLOTS-1] == UNSET {
        Fill(sensMin, s, m);
      } else if sensMin[s, 0] == UNSET || m < sensMin[s, 0] {
        sensMin[s, 0] := m;
      }
      if sensMax[s, SLOTS-1] == UNSET {
        Fill(sensMax, s, m);
      } else if m > sensMax[s, 0] {
        sensMax[s, 0] := m;
      }
    }

    static method Fill(a: array2<int8>, s: nat, m: int8)
      requires s < a.Length0 && a.Length1 == SLOTS
      modifies a
      ensures RowOf(a, s) == All(m)
      ensures forall r, j :: 0 <= r < a.Length0 && 0 <= j < SLOTS && r != s ==> a[r, j] == old(a[r, j])
    {
      for h := 0 to SLOTS
        invariant forall j :: 0 <= j < h ==> a[s, j] == m
        invariant forall r, j :: 0 <= r < a.Length0 && 0 <= j < SLOTS && r != s ==> a[r, j] == old(a[r, j])
      {
        a[s, h] := m;
      }
    }

    /** Take in the result of a conversion of one sensor. */
    method Measure(s: nat, reading: Option<real>)
      requires Valid() && s < tempMax
      modifies this`failed, sensTemp, sensMin, sensMax
      ensures SensorAt(s) == Measured(old(SensorAt(s)), reading)
      ensures forall r :: 0 <= r < tempMax && r != s ==> SensorAt(r) == old(SensorAt(r))
    {
      forall r | 0 <= r < tempMax
        ensures Has(Plus(failed, Bit(s)), r) <==> s == r || Has(failed, r)
        ensures Has(Minus(failed, Bit(s)), r) <==> s != r && Has(failed, r)
      {
        BitChanged(failed, s, r);
      }
      hide Has, Plus, Minus, Bit, SlotOf, Lowered, Raised;
      match reading {
        case None =>
          if Has(failed, s) {
            sensTemp[s] := None;
          } else {
            failed := Plus(failed, Bit(s));
          }
        case Some(t) =>
          failed := Minus(failed, Bit(s));
          sensTemp[s] := Some(t);
          Record(s, SlotOf(t));
      }
    }

    method AnySensor(present: seq<bool>) returns (found: nat)
      requires |present| == tempMax
      ensures found > 0 <==> AnyPresent(present)
    {
      found := 0;
      for s := 0 to tempMax
        invariant found > 0 <==> AnyPresent(present[..s])
      {
        assert present[..s+1] == present[..s] + [present[s]];
        if present[s] {
          assert present[..s+1][s];
          found := found + 1;
        }
      }
      assert present[..tempMax] == present;
    }

    method MeasureAll(i: Input)
      requires Valid() && i.Valid(tempMax)
      modifies this`failed, sensTemp, sensMin, sensMax
      ensures forall s :: 0 <= s < tempMax ==>
                SensorAt(s) == if i.present[s] then Measured(old(SensorAt(s)), i.readings[s]) else old(SensorAt(s))
    {
      hide Has, Measured;
      for s := 0 to tempMax
        invariant forall r :: 0 <= r < s ==>
                    SensorAt(r) == if i.present[r] then Measured(old(SensorAt(r)), i.readings[r]) else old(SensorAt(r))
        invariant forall r :: s <= r < tempMax ==> SensorAt(r) == old(SensorAt(r))
      {
        if i.present[s] {
          Measure(s, i.readings[s]);
        }
      }
    }

    /** Count a minute, and turn the slots after 240 of them. */
    method Tick(i: Input)
      requires Valid()
      modifies this`minMaxCount, sensMin, sensMax
      ensures minMaxCount
           == if !i.tick then old(minMaxCount) else if Turns(old(Ctl()), i) then 0 else old(minMaxCount) + 1
      ensures forall s :: 0 <= s < tempMax ==>
                SensorAt(s) == if Turns(old(Ctl()), i) then old(SensorAt(s)).(row := Rotated(old(SensorAt(s)).row))
                               else old(SensorAt(s))
    {
      hide Has, Rotated, RowOf;
      if i.tick {
        minMaxCount := minMaxCount + 1;
        if minMaxCount >= TICKS {
          minMaxCount := 0;
          Rotate();
        }
      }
    }

    /** Poll the sensors; the result says that a conversion has just finished, or that there is nothing to
        convert. */
    method Loop(i: Input) returns (done: bool)
      requires Valid() && i.Valid(tempMax)
      modifies this, sensTemp, sensMin, sensMax
      ensures Ctl() == NextControl(old(Ctl()), i)
      ensures forall s :: 0 <= s < tempMax ==> SensorAt(s) == NextSensor(old(Ctl()), old(SensorAt(s)), i, s)
      ensures done == Done(old(Ctl()), i)
      ensures run == old(run) + [i] && (old(Tracked()) ==> Tracked())
    {
      ghost var before := run;
      RunMore(tempMax, before, i);
      run := run + [i];
      done := DoLoop(i);
    }

    method DoLoop(i: Input) returns (done: bool)
      requires Valid() && i.Valid(tempMax)
      modifies this`failed, this`converting, this`lastConv, this`minMaxCount, sensTemp, sensMin, sensMax
      ensures Ctl() == NextControl(old(Ctl()), i)
      ensures forall s :: 0 <= s < tempMax ==> SensorAt(s) == NextSensor(old(Ctl()), old(SensorAt(s)), i, s)
      ensures done == Done(old(Ctl()), i)
    {
      hide Has, Measured, Rotated, AnyPresent, RowOf;
      Tick(i);
      if !converting {
        if i.secs != 0 && lastConv != 0 && (i.now - lastConv) % CLOCK <= i.secs * 1000 {
          return false;
        }
        var found := AnySensor(i.present);
        lastConv := i.now;
        if found > 0 {
          converting := true;
          return false;
        } else {
          return true;
        }
      } else if (i.now - lastConv) % CLOCK > CONVTIME {
        MeasureAll(i);
        converting := false;
        return true;
      }
      return false;
    }

    /** The least slot, as an unsigned 16-bit number. */
    method GetMin(s: nat) returns (t: nat)
      requires Valid()
      ensures t == if s >= tempMax then 0x8000 else (Lowest(RowOf(sensMin, s)) + 88) % 0x1_0000
      ensures Tracked() && s < tempMax && InRange(RoundedPeriods(tempMax, run, s)) ==>
                var es := EventsAfter(tempMax, run, s);
                ShowsColdest(RoundedPeriods(tempMax, run, s), t) <==> MinimumKept(Periods(es), Periods(Since(es)))
    {
      hide Has, IsLeast, IsGreatest, ShowsColdest, ShowsWarmest, MinimumKept, MaximumKept, EventsAfter, RoundedPeriods,
           SensorAfter, ControlAfter, Periods, Since, InRange;
      if s >= tempMax {
        return 0x8000;
      }
      var row := RowOf(sensMin, s);
      var low := sensMin[s, 0];
      for h := 1 to SLOTS
        invariant low == Lowest(row[..h])
      {
        assert row[..h+1][..h] == row[..h];
        if sensMin[s, h] < low {
          low := sensMin[s, h];
        }
      }
      assert row[..SLOTS] == row;
      t := (low + TEMP_OFFSET) % 0x1_0000;
      if Tracked() && InRange(RoundedPeriods(tempMax, run, s)) {
        assert SensorAt(s) == SensorAfter(tempMax, run, s);
        ShownExtremesIff(tempMax, run, s);
      }
    }

    method GetMax(s: nat) returns (t: nat)
      requires Valid()
      ensures t == if s >= tempMax then 0x8000 else (Highest(RowOf(sensMax, s)) + 88) % 0x1_0000
      ensures Tracked() && s < tempMax && InRange(RoundedPeriods(tempMax, run, s)) ==>
                var es := EventsAfter(tempMax, run, s);
                ShowsWarmest(RoundedPeriods(tempMax, run, s), t) <==> MaximumKept(Periods(es), Periods(Since(es)))
    {
      hide Has, IsLeast, IsGreatest, ShowsColdest, ShowsWarmest, MinimumKept, MaximumKept, EventsAfter, RoundedPeriods,
           SensorAfter, ControlAfter, Periods, Since, InRange;
      if s >= tempMax {
        return 0x8000;
      }
      var row := RowOf(sensMax, s);
      var high := sensMax[s, 0];
      for h := 1 to SLOTS
        invariant high == Highest(row[..h])
      {
        assert row[..h+1][..h] == row[..h];
        if sensMax[s, h] > high {
          high := sensMax[s, h];
        }
      }
      assert row[..SLOTS] == row;
      t := (high + TEMP_OFFSET) % 0x1_0000;
      if Tracked() && InRange(RoundedPeriods(tempMax, run, s)) {
        assert SensorAt(s) == SensorAfter(tempMax, run, s);
        ShownExtremesIff(tempMax, run, s);
      }
    }
  }
}
