/** `filters.gpstimeconvert`: conversion between GPS time and seconds of the week or day, which start
    again at zero every period. Times are exact reals; `period` is the length of a week or of a day.
 */
module GpsTime {
  import opened Options

  const WEEK := 604800.0
  const DAY := 86400.0

  // ----- one time

  /** Add whole periods until the time is no longer below `bound`. */
  function UnwrapFrom(t: real, bound: real, period: real): real
    requires period >= 1.0
    decreases bound - t
  {
    if t < bound then UnwrapFrom(t + period, bound, period) else t
  }

  /** The time that follows `last`; the first time of a run is taken as it is. */
  function UnwrapNext(t: real, last: Option<real>, tolerance: real, period: real): real
    requires period >= 1.0
  {
    if last.None? then t else UnwrapFrom(t, last.value - tolerance, period)
  }

  /** Remove whole periods until the time is below one. */
  function WrapDown(t: real, period: real): real
    requires period >= 1.0
    decreases t
  {
    if t >= period then WrapDown(t - period, period) else t
  }

  /** Unwrapping adds k periods exactly when that reaches the bound and one period less would not. */
  lemma {:induction false} UnwrapAdds(t: real, bound: real, period: real, k: int)
    requires period >= 1.0
    ensures UnwrapFrom(t, bound, period) == t + k as real * period <==>
            k >= 0 && t + k as real * period >= bound && (k == 0 || t + (k - 1) as real * period < bound)
    decreases bound - t
  {
    if t < bound {
      UnwrapAdds(t + period, bound, period, k - 1);
      Shift(t, period, k);
      Shift(t, period, k - 1);
      PeriodsOrdered(period, k);
    } else {
      PeriodsOrdered(period, k);
      PeriodsOrdered(period, k - 1);
    }
  }

  lemma Shift(t: real, period: real, k: int)
    ensures t + period + (k - 1) as real * period == t + k as real * period
  {
  }

  lemma PeriodsOrdered(period: real, k: int)
    requires period >= 1.0
    ensures k > 0 ==> k as real * period >= period
    ensures k == 0 ==> k as real * period == 0.0
    ensures k < 0 ==> k as real * period <= -period
  {
  }

  /** Unwrapping always adds a whole, non-negative number of periods. */
  lemma {:induction false} UnwrapPeriods(t: real, bound: real, period: real) returns (k: nat)
    requires period >= 1.0
    ensures UnwrapFrom(t, bound, period) == t + k as real * period
    decreases bound - t
  {
    if t < bound {
      var j := UnwrapPeriods(t + period, bound, period);
      k := j + 1;
      Shift(t, period, k);
    } else {
      k := 0;
    }
  }

  /** Wrapping takes any number of whole periods off a time of the first period. */
  lemma {:induction false} WrapRemoves(t: real, period: real, k: nat)
    requires period >= 1.0 && 0.0 <= t < period
    ensures WrapDown(t + k as real * period, period) == t
  {
    if k > 0 {
      Shift(t, period, k);
      PeriodsOrdered(period, k);
      WrapRemoves(t, period, k - 1);
    }
  }

  // ----- a run

  /** The unwrapped times of a run. */
  function UnwrapRun(ts: seq<real>, tolerance: real, period: real): (us: seq<real>)
    requires period >= 1.0
    ensures |us| == |ts|
  {
    if ts == [] then []
    else
      var last := |ts| - 1;
      var us := UnwrapRun(ts[..last], tolerance, period);
      us + [UnwrapNext(ts[last], if last == 0 then None else Some(us[last - 1]), tolerance, period)]
  }

  lemma {:induction false} UnwrapRunAt(ts: seq<real>, tolerance: real, period: real, i: nat)
    requires period >= 1.0 && i < |ts|
    ensures var us := UnwrapRun(ts, tolerance, period);
            us[i] == UnwrapNext(ts[i], if i == 0 then None else Some(us[i - 1]), tolerance, period)
  {
    if i < |ts| - 1 {
      UnwrapRunAt(ts[..|ts| - 1], tolerance, period, i);
    }
  }

  /** The time that the i-th value stands for when it lies in period periods[i]. */
  function TrueTime(ts: seq<real>, periods: seq<int>, period: real, i: nat): real
    requires i < |ts| == |periods|
  {
    periods[i] as real * period + ts[i]
  }

  /** The i-th value is unwrapped to its true time, up to the periods before the first value. */
  predicate Recovered(ts: seq<real>, periods: seq<int>, tolerance: real, period: real, i: nat)
    requires period >= 1.0 && i < |ts| == |periods|
  {
    UnwrapRun(ts, tolerance, period)[i] == TrueTime(ts, periods, period, i) - periods[0] as real * period
  }

  /** What a value must satisfy: it does not fall back by more than the tolerance, does not leave the
      first period downwards and, once past that period, does not lag so far behind the next one that
      one period less would be within tolerance as well. */
  predicate Follows(ts: seq<real>, periods: seq<int>, tolerance: real, period: real, i: nat)
    requires 0 < i < |ts| == |periods|
  {
    var gap := TrueTime(ts, periods, period, i) - TrueTime(ts, periods, period, i - 1);
    periods[i] >= periods[0] && -tolerance <= gap && (periods[i] == periods[0] || gap < period - tolerance)
  }

  lemma StepRecovers(ts: seq<real>, periods: seq<int>, tolerance: real, period: real, i: nat)
    requires period >= 1.0 && 0 < i < |ts| == |periods|
    requires Recovered(ts, periods, tolerance, period, i - 1)
    ensures Recovered(ts, periods, tolerance, period, i) <==> Follows(ts, periods, tolerance, period, i)
  {
    var k := periods[i] - periods[0];
    var us := UnwrapRun(ts, tolerance, period);
    var bound := us[i - 1] - tolerance;
    UnwrapRunAt(ts, tolerance, period, i);
    UnwrapAdds(ts[i], bound, period, k);
    assert k as real * period == periods[i] as real * period - periods[0] as real * period;
    assert (k - 1) as real * period == k as real * period - period;
  }

  lemma FirstRecovered(ts: seq<real>, periods: seq<int>, tolerance: real, period: real)
    requires period >= 1.0 && 0 < |ts| == |periods|
    ensures Recovered(ts, periods, tolerance, period, 0)
  {
    UnwrapRunAt(ts, tolerance, period, 0);
  }

  /** A run is recovered, up to one shift by whole periods, exactly when every value follows. */
  lemma RecoversIff(ts: seq<real>, periods: seq<int>, tolerance: real, period: real)
    requires period >= 1.0 && |ts| == |periods|
    ensures (forall i :: 0 <= i < |ts| ==> Recovered(ts, periods, tolerance, period, i)) <==>
            (forall i :: 0 < i < |ts| ==> Follows(ts, periods, tolerance, period, i))
  {
    if forall i :: 0 <= i < |ts| ==> Recovered(ts, periods, tolerance, period, i) {
      forall i | 0 < i < |ts| ensures Follows(ts, periods, tolerance, period, i) {
        StepRecovers(ts, periods, tolerance, period, i);
      }
    }
    if forall i :: 0 < i < |ts| ==> Follows(ts, periods, tolerance, period, i) {
      forall i | 0 <= i < |ts| ensures Recovered(ts, periods, tolerance, period, i) {
        RecoversUpTo(ts, periods, tolerance, period, i);
      }
    }
  }

  lemma {:induction false} RecoversUpTo(ts: seq<real>, periods: seq<int>, tolerance: real, period: real, i: nat)
    requires period >= 1.0 && i < |ts| == |periods|
    requires forall j :: 0 < j < |ts| ==> Follows(ts, periods, tolerance, period, j)
    ensures Recovered(ts, periods, tolerance, period, i)
  {
    if i == 0 {
      FirstRecovered(ts, periods, tolerance, period);
    } else {
      RecoversUpTo(ts, periods, tolerance, period, i - 1);
      StepRecovers(ts, periods, tolerance, period, i);
    }
  }

  /** Times in ascending order with gaps below a period less the tolerance are recovered. */
  lemma AscendingRecovered(ts: seq<real>, periods: seq<int>, tolerance: real, period: real)
    requires period >= 1.0 && |ts| == |periods| && 0.0 <= tolerance < period
    requires forall i :: 0 <= i < |ts| ==> 0.0 <= ts[i] < period
    requires forall i :: 0 < i < |ts| ==>
      0.0 <= TrueTime(ts, periods, period, i) - TrueTime(ts, periods, period, i - 1) < period - tolerance
    ensures forall i :: 0 <= i < |ts| ==> Recovered(ts, periods, tolerance, period, i)
  {
    forall i | 0 < i < |ts| ensures Follows(ts, periods, tolerance, period, i) {
      PeriodsAscend(ts, periods, period, i);
    }
    RecoversIff(ts, periods, tolerance, period);
  }

  /** Recovery fails whenever a time falls back by more than the tolerance: it is taken to belong to a
      later period. */
  lemma FallingBackFails(a: real, b: real, tolerance: real, period: real)
    requires period >= 1.0 && a - b > tolerance
    ensures !Recovered([a, b], [0, 0], tolerance, period, 1)
  {
    FirstRecovered([a, b], [0, 0], tolerance, period);
    StepRecovers([a, b], [0, 0], tolerance, period, 1);
  }

  /** It fails as well whenever a time comes so late that one period less would already be within tolerance. */
  lemma LongGapFails(a: real, b: real, k: nat, tolerance: real, period: real)
    requires period >= 1.0 && k > 0 && k as real * period + b - a >= period - tolerance
    ensures !Recovered([a, b], [0, k], tolerance, period, 1)
  {
    FirstRecovered([a, b], [0, k], tolerance, period);
    StepRecovers([a, b], [0, k], tolerance, period, 1);
  }

  /** Five seconds back in one week, and two weeks ahead, with a tolerance of one second. */
  lemma LostWeeks()
    ensures !Recovered([10.0, 5.0], [0, 0], 1.0, WEEK, 1)
    ensures !Recovered([10.0, 10.0], [0, 2], 1.0, WEEK, 1)
  {
    FallingBackFails(10.0, 5.0, 1.0, WEEK);
    LongGapFails(10.0, 10.0, 2, 1.0, WEEK);
  }

  lemma {:induction false} PeriodsAscend(ts: seq<real>, periods: seq<int>, period: real, i: nat)
    requires period >= 1.0 && i < |ts| == |periods|
    requires forall j :: 0 <= j < |ts| ==> 0.0 <= ts[j] < period
    requires forall j :: 0 < j < |ts| ==> TrueTime(ts, periods, period, j - 1) <= TrueTime(ts, periods, period, j)
    ensures periods[0] <= periods[i]
  {
    if i > 0 {
      PeriodsAscend(ts, periods, period, i - 1);
      var d := periods[i] - periods[i - 1];
      assert TrueTime(ts, periods, period, i - 1) <= TrueTime(ts, periods, period, i);
      assert d as real * period == periods[i] as real * period - periods[i - 1] as real * period;
      assert 0.0 <= ts[i] < period && 0.0 <= ts[i - 1];
      assert d as real * period + ts[i] - ts[i - 1] >= 0.0;
      PeriodsOrdered(period, d);
    }
  }

  /** Unwrapping, adding an offset, subtracting it and wrapping gives back the values of a run. */
  lemma RoundTrip(ts: seq<real>, tolerance: real, period: real, offset: int, i: nat)
    requires period >= 1.0 && i < |ts| && 0.0 <= ts[i] < period
    ensures WrapDown(UnwrapRun(ts, tolerance, period)[i] + offset as real - offset as real, period) == ts[i]
  {
    UnwrapRunAt(ts, tolerance, period, i);
    if i == 0 {
      WrapRemoves(ts[i], period, 0);
    } else {
      var k := UnwrapPeriods(ts[i], UnwrapRun(ts, tolerance, period)[i - 1] - tolerance, period);
      WrapRemoves(ts[i], period, k);
    }
  }

  // ----- the same without the functions above

  /** t is unwrapped to u: it gains the least number of whole periods with which it does not fall back behind
      the time before it by more than the tolerance. */
  ghost predicate Gains(t: real, u: real, before: real, tolerance: real, period: real) {
    exists k: nat :: GainsPeriods(t, u, before, tolerance, period, k)
  }

  ghost predicate GainsPeriods(t: real, u: real, before: real, tolerance: real, period: real, k: nat) {
    u == t + k as real * period && u >= before - tolerance && (k == 0 || u - period < before - tolerance)
  }

  /** t is wrapped to u: it loses whole periods until it is below one, and none that it does not have. */
  ghost predicate Loses(t: real, u: real, period: real) {
    exists k: nat :: LosesPeriods(t, u, period, k)
  }

  ghost predicate LosesPeriods(t: real, u: real, period: real, k: nat) {
    u == t - k as real * period && u < period && (k == 0 || u >= 0.0)
  }

  /** us are the unwrapped times of a run, which begins with the first time as it is. */
  ghost predicate Unwraps(ts: seq<real>, us: seq<real>, tolerance: real, period: real) {
    && |us| == |ts|
    && (ts != [] ==> us[0] == ts[0])
    && forall i :: 0 < i < |ts| ==> Gains(ts[i], us[i], us[i - 1], tolerance, period)
  }

  lemma UnwrapMeaning(t: real, before: real, tolerance: real, period: real)
    requires period >= 1.0
    ensures Gains(t, UnwrapFrom(t, before - tolerance, period), before, tolerance, period)
  {
    var k := UnwrapPeriods(t, before - tolerance, period);
    UnwrapAdds(t, before - tolerance, period, k);
    assert (k as int - 1) as real * period == k as real * period - period;
    assert GainsPeriods(t, UnwrapFrom(t, before - tolerance, period), before, tolerance, period, k);
  }

  lemma {:induction false} WrapMeaning(t: real, period: real)
    requires period >= 1.0
    ensures Loses(t, WrapDown(t, period), period)
    decreases t
  {
    if t >= period {
      WrapMeaning(t - period, period);
      var u := WrapDown(t - period, period);
      var k :| k >= 0 && LosesPeriods(t - period, u, period, k);
      Shift(u, period, k + 1);
      assert LosesPeriods(t, u, period, k + 1);
    } else {
      assert LosesPeriods(t, t, period, 0);
    }
  }

  lemma RunMeaning(ts: seq<real>, tolerance: real, period: real)
    requires period >= 1.0
    ensures Unwraps(ts, UnwrapRun(ts, tolerance, period), tolerance, period)
  {
    hide Gains;
    var us := UnwrapRun(ts, tolerance, period);
    forall i | 0 <= i < |ts|
      ensures if i == 0 then us[0] == ts[0] else Gains(ts[i], us[i], us[i - 1], tolerance, period)
    {
      UnwrapRunAt(ts, tolerance, period, i);
      if i > 0 {
        UnwrapMeaning(ts[i], us[i - 1], tolerance, period);
      }
    }
  }

  // ----- the filter

  datatype TimeType = GT | GST | GWS | GDS

  predicate IsGps(t: TimeType) {
    t == GT || t == GST
  }

  function Period(t: TimeType): real {
    if t == GWS then WEEK else DAY
  }

  const STANDARD_OFFSET := 1000000000.0

  /** GPS zero to the start of the week and of the day of the first point, from the calendar. */
  datatype Calendar = Calendar(weekStart: int, dayStart: int)

  /** GPS zero to the start of the week or day that a GPS time is converted to, counted from the zero of `from`. */
  function PeriodStart(calendar: Calendar, from: TimeType, to: TimeType): int {
    (if to == GWS then calendar.weekStart else calendar.dayStart) - if from == GST then 1000000000 else 0
  }

  class GpsTimeConvert {
    const inTime: TimeType
    const outTime: TimeType
    const wrap: bool
    const wrapped: bool
    const tolerance: real
    var first: bool
    /** None stands for the lowest double, which is below every time. */
    var lastTime: Option<real>
    var numSeconds: int

    constructor (from: TimeType, to: TimeType, wrapOut: bool, wrappedIn: bool, tol: real, seconds: int)
      ensures inTime == from && outTime == to && wrap == wrapOut && wrapped == wrappedIn && tolerance == tol
      ensures first && lastTime == None && numSeconds == seconds
    {
      inTime, outTime, wrap, wrapped, tolerance := from, to, wrapOut, wrappedIn, tol;
      first, lastTime, numSeconds := true, None, seconds;
    }

    /** Wrapped input is unwrapped, wrapped output is wrapped. */
    function Enter(t: real, last: Option<real>, period: real): real
      requires period >= 1.0
    {
      if wrapped then UnwrapNext(t, last, tolerance, period) else t
    }

    function Leave(t: real, period: real): real
      requires period >= 1.0
    {
      if wrap then WrapDown(t, period) else t
    }

    /** `unwrapWeekSeconds` and `unwrapDaySeconds`. */
    method UnwrapSeconds(times: array<real>, i: nat, period: real)
      requires i < times.Length && period >= 1.0
      modifies times, this`lastTime
      ensures times[..] == old(times[..])[i := UnwrapNext(old(times[i]), old(lastTime), tolerance, period)]
      ensures lastTime == Some(times[i])
    {
      ghost var before := times[..];
      if lastTime.Some? {
        while times[i] + tolerance < lastTime.value
          invariant forall j :: 0 <= j < times.Length && j != i ==> times[j] == before[j]
          invariant lastTime == old(lastTime)
          invariant var bound := lastTime.value - tolerance;
                    UnwrapFrom(times[i], bound, period) == UnwrapFrom(before[i], bound, period)
          decreases lastTime.value - tolerance - times[i]
        {
          var t := times[i];
          times[i] := t + period;
        }
      }
      lastTime := Some(times[i]);
    }

    /** `wrapWeekSeconds` and `wrapDaySeconds`. */
    method WrapSeconds(times: array<real>, i: nat, period: real)
      requires i < times.Length && period >= 1.0
      modifies times
      ensures times[..] == old(times[..])[i := WrapDown(old(times[i]), period)]
    {
      ghost var before := times[..];
      while times[i] >= period
        invariant forall j :: 0 <= j < times.Length && j != i ==> times[j] == before[j]
        invariant WrapDown(times[i], period) == WrapDown(before[i], period)
        decreases times[i]
      {
        var t := times[i];
        times[i] := t - period;
      }
    }

    /** `weekSeconds2GpsTime` and `daySeconds2GpsTime`. */
    method Seconds2GpsTime(times: array<real>, i: nat, period: real)
      requires i < times.Length && period >= 1.0
      modifies times, this`lastTime
      ensures times[..] == old(times[..])[i := Enter(old(times[i]), old(lastTime), period) + numSeconds as real]
      ensures lastTime == if wrapped then Some(Enter(old(times[i]), old(lastTime), period)) else old(lastTime)
    {
      if wrapped {
        UnwrapSeconds(times, i, period);
      }
      var t := times[i];
      times[i] := t + numSeconds as real;
    }

    /** `gpsTime2WeekSeconds` and `gpsTime2DaySeconds`. */
    method GpsTime2Seconds(times: array<real>, i: nat, period: real)
      requires i < times.Length && period >= 1.0
      modifies times
      ensures times[..] == old(times[..])[i := Leave(old(times[i]) - numSeconds as real, period)]
    {
      var t := times[i];
      times[i] := t - numSeconds as real;
      if wrap {
        WrapSeconds(times, i, period);
      }
    }

    method GpsTime2GpsTime(times: array<real>, i: nat)
      requires i < times.Length
      modifies times
      ensures var offset := if inTime == GT && outTime == GST then -STANDARD_OFFSET else STANDARD_OFFSET;
              times[..] == old(times[..])[i := old(times[i]) + offset]
    {
      var tOffset := STANDARD_OFFSET;
      if inTime == GT && outTime == GST {
        tOffset := tOffset * -1.0;
      }
      var t := times[i];
      times[i] := t + tOffset;
    }

    method ProcessOne(times: array<real>, i: nat, calendar: Calendar)
      requires i < times.Length
      modifies times, this`lastTime, this`first, this`numSeconds
      ensures inTime == outTime ==> times[..] == old(times[..])
      ensures !IsGps(inTime) && inTime != outTime ==>
        var t := Enter(old(times[i]), old(lastTime), Period(inTime)) + numSeconds as real;
        && lastTime == (if wrapped then Some(Enter(old(times[i]), old(lastTime), Period(inTime))) else old(lastTime))
        && var u := if IsGps(outTime) then t else Leave(t - numSeconds as real, Period(outTime));
           times[..] == old(times[..])[i := u]
      ensures IsGps(inTime) && !IsGps(outTime) ==>
        times[..] == old(times[..])[i := Leave(old(times[i]) - numSeconds as real, Period(outTime))]
      ensures IsGps(inTime) && IsGps(outTime) && inTime != outTime ==>
        times[..] == old(times[..])[i := old(times[i]) + if inTime == GT then -1000000000.0 else 1000000000.0]
      ensures !wrapped && !IsGps(inTime) && IsGps(outTime) ==>
        times[..] == old(times[..])[i := old(times[i]) + numSeconds as real]
      ensures !wrap && IsGps(inTime) && !IsGps(outTime) ==>
        times[..] == old(times[..])[i := old(times[i]) - numSeconds as real]
      ensures !wrapped && !wrap && !IsGps(inTime) && !IsGps(outTime) ==> times[..] == old(times[..])
      ensures IsGps(inTime) || inTime == outTime ==> lastTime == old(lastTime)
      ensures !(IsGps(inTime) && old(first)) || IsGps(outTime) ==> numSeconds == old(numSeconds)
      ensures first == if IsGps(inTime) then false else old(first)
      ensures IsGps(inTime) && old(first) && !IsGps(outTime) ==>
        numSeconds == PeriodStart(calendar, inTime, outTime)
    {
      if inTime == GWS {
        if outTime == GST || outTime == GT {
          Seconds2GpsTime(times, i, WEEK);
        } else if outTime == GDS {
          Seconds2GpsTime(times, i, WEEK);
          GpsTime2Seconds(times, i, DAY);
        }
      } else if inTime == GDS {
        if outTime == GST || outTime == GT {
          Seconds2GpsTime(times, i, DAY);
        }
        if outTime == GWS {
          Seconds2GpsTime(times, i, DAY);
          GpsTime2Seconds(times, i, WEEK);
        }
      } else {
        if first {
          var tOffset := if inTime == GST then 1000000000 else 0;
          if outTime == GDS {
            numSeconds := calendar.dayStart - tOffset;
          } else if outTime == GWS {
            numSeconds := calendar.weekStart - tOffset;
          }
          first := false;
        }
        if outTime == GWS {
          GpsTime2Seconds(times, i, WEEK);
        } else if outTime == GDS {
          GpsTime2Seconds(times, i, DAY);
        } else if inTime != outTime {
          GpsTime2GpsTime(times, i);
        }
      }
    }

    /** The whole view, for wrapped week or day seconds converted to GPS time. */
    method FilterUnwrapping(times: array<real>, calendar: Calendar) returns (ghost us: seq<real>)
      requires (inTime == GWS || inTime == GDS) && IsGps(outTime) && wrapped && lastTime == None
      modifies times, this
      ensures numSeconds == old(numSeconds)
      ensures us == UnwrapRun(old(times[..]), tolerance, Period(inTime))
      ensures Unwraps(old(times[..]), us, tolerance, if inTime == GWS then 604800.0 else 86400.0)
      ensures forall i :: 0 <= i < times.Length ==> times[i] == us[i] + numSeconds as real
    {
      ghost var ts, period := times[..], Period(inTime);
      us := UnwrapRun(ts, tolerance, period);
      var i := 0;
      while i < times.Length
        invariant 0 <= i <= times.Length
        invariant numSeconds == old(numSeconds)
        invariant lastTime == if i == 0 then None else Some(us[i - 1])
        invariant forall j :: 0 <= j < i ==> times[j] == us[j] + numSeconds as real
        invariant forall j :: i <= j < times.Length ==> times[j] == ts[j]
      {
        UnwrapRunAt(ts, tolerance, period, i);
        ghost var before := times[..];
        ProcessOne(times, i, calendar);
        assert times[..] == before[i := us[i] + numSeconds as real];
        assert forall j :: 0 <= j < times.Length && j != i ==> times[..][j] == before[j];
        i := i + 1;
      }
      RunMeaning(ts, tolerance, period);
    }

    /** The whole view, for GPS time converted to wrapped week or day seconds. */
    method FilterWrapping(times: array<real>, calendar: Calendar)
      requires IsGps(inTime) && (outTime == GWS || outTime == GDS) && wrap && first
      modifies times, this
      ensures times.Length > 0 ==>
        numSeconds == PeriodStart(calendar, inTime, outTime)
      ensures forall i :: 0 <= i < times.Length ==>
        times[i] == WrapDown(old(times[i]) - numSeconds as real, Period(outTime))
      ensures var start := if outTime == GWS then calendar.weekStart else calendar.dayStart;
              var zero := if inTime == GST then 1000000000 else 0;
              forall i :: 0 <= i < times.Length ==>
                Loses(old(times[i]) - (start - zero) as real, times[i], if outTime == GWS then 604800.0 else 86400.0)
    {
      ghost var ts := times[..];
      var i := 0;
      while i < times.Length
        invariant 0 <= i <= times.Length && first == (i == 0)
        invariant i > 0 ==>
          numSeconds == PeriodStart(calendar, inTime, outTime)
        invariant forall j :: 0 <= j < i ==>
          times[j] == WrapDown(ts[j] - numSeconds as real, Period(outTime))
        invariant forall j :: i <= j < times.Length ==> times[j] == ts[j]
      {
        ghost var before := times[..];
        ProcessOne(times, i, calendar);
        assert forall j :: 0 <= j < times.Length && j != i ==> times[..][j] == before[j];
        i := i + 1;
      }
      forall j | 0 <= j < times.Length
        ensures Loses(ts[j] - PeriodStart(calendar, inTime, outTime) as real, times[j], Period(outTime))
      {
        WrapMeaning(ts[j] - numSeconds as real, Period(outTime));
      }
    }
  }

  /** Wrapped week or day seconds, converted to GPS time by one filter and back by another that finds the
      same period start, come back as they were. */
  method ThereAndBack(times: array<real>, seconds: TimeType, gps: TimeType, tolerance: real, start: int,
    calendar: Calendar)
    requires !IsGps(seconds) && IsGps(gps) && PeriodStart(calendar, gps, seconds) == start
    requires forall i :: 0 <= i < times.Length ==> 0.0 <= times[i] < Period(seconds)
    modifies times
    ensures times[..] == old(times[..])
  {
    hide UnwrapRun, WrapDown;
    ghost var ts, period := times[..], Period(seconds);
    var there := new GpsTimeConvert(seconds, gps, false, true, tolerance, start);
    ghost var us := there.FilterUnwrapping(times, calendar);
    var back := new GpsTimeConvert(gps, seconds, true, false, tolerance, 0);
    back.FilterWrapping(times, calendar);
    forall i | 0 <= i < times.Length ensures times[i] == ts[i] {
      RoundTrip(ts, tolerance, period, start, i);
    }
  }
}
