/** The stopwatch engine: the elapsed time, whether the clock runs, and the
    lap history, with the handlers that change them. */
module StopwatchEngine {
  import opened TimeFormat
  import opened Laps

  class Stopwatch {
    /** Elapsed milliseconds since the last reset. */
    var time: nat
    var isRunning: bool
    var lapTimes: seq<LapTime>
    /** The elapsed time at which each recorded lap was taken. */
    ghost var Totals: seq<nat>

    /** The clock advances in steps of 10 ms, laps are only taken once the
        clock has moved and never in the future, and the history is what the
        lap handler records for those times. */
    ghost predicate Valid()
      reads this
    {
      time % 10 == 0 &&
      Recorded(lapTimes, Totals) &&
      forall k :: 0 <= k < |Totals| ==> 0 < Totals[k] <= time && Totals[k] % 10 == 0
    }

    /** The initial state: stopped at zero with no laps. */
    constructor ()
      ensures Valid()
      ensures time == 0 && !isRunning && lapTimes == [] && Totals == []
    {
      time := 0;
      isRunning := false;
      lapTimes := [];
      Totals := [];
    }

    /** `handleStart`: the clock runs; nothing else changes. */
    method Start()
      requires Valid()
      modifies this
      ensures Valid()
      ensures isRunning
      ensures time == old(time) && lapTimes == old(lapTimes) && Totals == old(Totals)
    {
      isRunning := true;
    }

    /** `handlePause`: the clock stops; nothing else changes. */
    method Pause()
      requires Valid()
      modifies this
      ensures Valid()
      ensures !isRunning
      ensures time == old(time) && lapTimes == old(lapTimes) && Totals == old(Totals)
    {
      isRunning := false;
    }

    /** `handleReset`: stopped, back to zero, history cleared, from any state. */
    method Reset()
      modifies this
      ensures Valid()
      ensures !isRunning && time == 0 && lapTimes == [] && Totals == []
    {
      isRunning := false;
      time := 0;
      lapTimes := [];
      Totals := [];
    }

    /** The interval callback, which fires only while the clock runs: one
        quantum of 10 ms. */
    method Tick()
      requires Valid() && isRunning
      modifies this
      ensures Valid()
      ensures time == old(time) + 10
      ensures isRunning && lapTimes == old(lapTimes) && Totals == old(Totals)
    {
      time := time + 10;
    }

    /** `handleLap`: nothing happens at zero. Otherwise one lap is appended,
        numbered after the last, with the current time as cumulative time and
        the time since the previous lap as split; the earlier laps keep their
        number and strings and only their flags are recomputed. */
    method Lap()
      requires Valid()
      modifies this
      ensures Valid()
      ensures time == old(time) && isRunning == old(isRunning)
      ensures old(time) == 0 ==> lapTimes == old(lapTimes) && Totals == old(Totals)
      ensures old(time) > 0 ==> Totals == old(Totals) + [time]
      ensures old(time) > 0 ==>
        |lapTimes| == |old(lapTimes)| + 1 &&
        lapTimes[|lapTimes| - 1].id == |old(lapTimes)| + 1 &&
        lapTimes[|lapTimes| - 1].totalTime == FormatTime(time) &&
        lapTimes[|lapTimes| - 1].time == FormatTime(time - PreviousTotal(old(Totals)))
      ensures forall k :: 0 <= k < |old(lapTimes)| ==> SameEntry(lapTimes[k], old(lapTimes)[k])
    {
      // Only the contracts of the calls below are needed: keep the solver
      // from unfolding the display format and the history predicates.
      hide FormatTime, ParseSplitTime, ParseTotalTime, Entries, FlagsMatch, Durations, Values, AllParsed, Splits;
      var now := time;
      if now > 0 {
        var previous := PreviousLapTotal(lapTimes, Totals);
        var newLap := LapTime(|lapTimes| + 1, FormatTime(now - previous), FormatTime(now), false, false);
        var updatedLaps := RecomputeFlags(lapTimes + [newLap]);
        RecordedAfterLap(lapTimes, Totals, newLap, updatedLaps, now, previous);
        lapTimes := updatedLaps;
        Totals := Totals + [now];
      }
    }
  }

  /** The history after one more lap at `time` is again as recorded. */
  lemma RecordedAfterLap(laps: seq<LapTime>, totals: seq<nat>, newLap: LapTime, updated: seq<LapTime>, time: nat, previous: nat)
    requires Recorded(laps, totals)
    requires forall k :: 0 <= k < |totals| ==> 0 < totals[k] <= time && totals[k] % 10 == 0
    requires time > 0 && time % 10 == 0
    requires newLap.id == |laps| + 1 && !newLap.isFastest && !newLap.isSlowest
    requires previous == PreviousTotal(totals) <= time
    requires newLap.totalTime == FormatTime(time) && newLap.time == FormatTime(time - previous)
    requires |updated| == |laps| + 1
    requires forall k :: 0 <= k < |updated| ==> SameEntry(updated[k], (laps + [newLap])[k])
    requires |updated| <= 1 ==> updated == laps + [newLap]
    requires |updated| > 1 && AllParsed(Durations(laps + [newLap])) ==>
      FlagsMatch(updated, Values(Durations(laps + [newLap])))
    ensures Recorded(updated, totals + [time])
  {
    hide FormatTime;
    var t := totals + [time];
    EntriesAppend(laps, totals, newLap, time);
    EntriesIgnoreFlags(laps + [newLap], updated, t);
    EntriesReadBack(laps + [newLap], t);
    if |updated| == 1 {
      assert AllEqual(Splits(t));
    }
  }

  /** The total of the last lap, read back from its cumulative string by the
      reduce of the lap handler, or 0 when there is no lap yet. */
  method PreviousLapTotal(laps: seq<LapTime>, ghost totals: seq<nat>) returns (previous: nat)
    requires Entries(laps, totals)
    requires forall k :: 0 <= k < |totals| ==> totals[k] % 10 == 0
    ensures previous == PreviousTotal(totals)
  {
    hide ParseTotalTime;
    previous := 0;
    if |laps| > 0 {
      LastTotalReadBack(laps, totals);
      previous := ParseTotalTime(laps[|laps| - 1].totalTime).value;
    }
  }

  /** Two laps in a row without a tick in between (say while paused) record
      the same cumulative time twice, with a split of zero: cumulative times
      never decrease but need not increase. */
  method LapTwice(sw: Stopwatch)
    requires sw.Valid() && sw.time > 0
    modifies sw
    ensures sw.Valid()
    ensures sw.Totals == old(sw.Totals) + [sw.time, sw.time]
    ensures sw.lapTimes[|sw.lapTimes| - 1].time == "00:00.00"
  {
    hide FormatTime, Recorded;
    sw.Lap();
    assert PreviousTotal(sw.Totals) == sw.time;
    sw.Lap();
    FormatTimeZero();
  }
}
