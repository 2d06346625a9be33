/** The lap recorder: lap records, the split durations they stand for, and
    the fastest/slowest flags recomputed over the whole history. */
module Laps {
  import opened Wrappers
  import opened TimeFormat

  /** One recorded lap (`LapTime`): its 1-based number, its split and its
      cumulative time as displayed strings, and the two derived flags. */
  datatype LapTime = LapTime(id: nat, time: string, totalTime: string, isFastest: bool, isSlowest: bool)

  /** Two records agree on everything except the flags. */
  predicate SameEntry(a: LapTime, b: LapTime)
  {
    a.id == b.id && a.time == b.time && a.totalTime == b.totalTime
  }

  // ---------------------------------------------------------------------
  // Cumulative times and split durations

  predicate NonDecreasing(t: seq<int>)
  {
    forall i :: 0 < i < |t| ==> t[i - 1] <= t[i]
  }

  /** The cumulative time of the last lap, or 0 when there is none. */
  function PreviousTotal(t: seq<nat>): nat
  {
    if t == [] then 0 else t[|t| - 1]
  }

  /** The split of each lap: the time since the previous lap, or since the
      reset for the first one. */
  function Splits(t: seq<int>): (s: seq<int>)
    ensures |s| == |t|
    ensures |t| > 0 ==> s[0] == t[0]
    ensures forall i :: 0 < i < |t| ==> s[i] == t[i] - t[i - 1]
    decreases |t|
  {
    if |t| <= 1 then t
    else Splits(t[..|t| - 1]) + [t[|t| - 1] - t[|t| - 2]]
  }

  function Sum(s: seq<int>): int
    decreases |s|
  {
    if s == [] then 0 else Sum(s[..|s| - 1]) + s[|s| - 1]
  }

  /** The splits add up to the cumulative time of the last lap. */
  lemma {:induction false} SplitsTelescope(t: seq<int>)
    ensures Sum(Splits(t)) == if t == [] then 0 else t[|t| - 1]
    decreases |t|
  {
    if |t| > 1 {
      var s := Splits(t);
      assert s[..|s| - 1] == Splits(t[..|t| - 1]);
      SplitsTelescope(t[..|t| - 1]);
    } else if |t| == 1 {
      assert Splits(t)[..0] == [];
    }
  }

  /** Cumulative times never go down exactly when no split is negative. */
  lemma SplitsNonNegative(t: seq<nat>)
    ensures NonDecreasing(t) ==> forall i :: 0 <= i < |t| ==> Splits(t)[i] >= 0
    ensures (forall i :: 0 <= i < |t| ==> Splits(t)[i] >= 0) ==> NonDecreasing(t)
  {
    if !NonDecreasing(t) {
      var i :| 0 < i < |t| && t[i - 1] > t[i];
      assert Splits(t)[i] < 0;
    }
  }

  /** Recording one more lap at cumulative time `x` adds one split. */
  lemma SplitsAppend(t: seq<nat>, x: nat)
    ensures Splits(t + [x]) == Splits(t) + [x - PreviousTotal(t)]
  {
    var a, b := Splits(t + [x]), Splits(t) + [x - PreviousTotal(t)];
    assert |a| == |b|;
    forall i | 0 <= i < |a| ensures a[i] == b[i] {
      if i < |t| && i > 0 {
        assert (t + [x])[i] == t[i] && (t + [x])[i - 1] == t[i - 1];
      }
    }
  }

  // ---------------------------------------------------------------------
  // Fastest and slowest

  predicate AllEqual(s: seq<int>)
  {
    forall j, k :: 0 <= j < |s| && 0 <= k < |s| ==> s[j] == s[k]
  }

  predicate IsMinAt(s: seq<int>, k: nat)
    requires k < |s|
  {
    forall j :: 0 <= j < |s| ==> s[k] <= s[j]
  }

  predicate IsMaxAt(s: seq<int>, k: nat)
    requires k < |s|
  {
    forall j :: 0 <= j < |s| ==> s[j] <= s[k]
  }

  /** The flags the history carries: a lap is fastest when its split is the
      least of all and the splits are not all equal, slowest likewise with
      the greatest. */
  predicate FlagsMatch(laps: seq<LapTime>, splits: seq<int>)
    requires |laps| == |splits|
  {
    forall k :: 0 <= k < |laps| ==>
      laps[k].isFastest == (!AllEqual(splits) && IsMinAt(splits, k)) &&
      laps[k].isSlowest == (!AllEqual(splits) && IsMaxAt(splits, k))
  }

  lemma {:induction false} MinExists(s: seq<int>)
    requires |s| > 0
    ensures exists k :: 0 <= k < |s| && IsMinAt(s, k)
    decreases |s|
  {
    if |s| > 1 {
      MinExists(s[1..]);
      var k :| 0 <= k < |s[1..]| && IsMinAt(s[1..], k);
      if s[0] <= s[k + 1] {
        assert IsMinAt(s, 0);
      } else {
        assert IsMinAt(s, k + 1);
      }
    } else {
      assert IsMinAt(s, 0);
    }
  }

  lemma {:induction false} MaxExists(s: seq<int>)
    requires |s| > 0
    ensures exists k :: 0 <= k < |s| && IsMaxAt(s, k)
    decreases |s|
  {
    if |s| > 1 {
      MaxExists(s[1..]);
      var k :| 0 <= k < |s[1..]| && IsMaxAt(s[1..], k);
      if s[0] >= s[k + 1] {
        assert IsMaxAt(s, 0);
      } else {
        assert IsMaxAt(s, k + 1);
      }
    } else {
      assert IsMaxAt(s, 0);
    }
  }

  /** What the flags promise: no lap is both fastest and slowest; when all
      splits are equal (in particular with a single lap) nothing is flagged;
      otherwise at least one lap is fastest and one is slowest, and every lap
      tied at the least (greatest) split is flagged. */
  lemma FlagsCharacterisation(laps: seq<LapTime>, splits: seq<int>)
    requires |laps| == |splits| && FlagsMatch(laps, splits)
    ensures forall k :: 0 <= k < |laps| ==> !(laps[k].isFastest && laps[k].isSlowest)
    ensures AllEqual(splits) ==> forall k :: 0 <= k < |laps| ==> !laps[k].isFastest && !laps[k].isSlowest
    ensures |laps| == 1 ==> !laps[0].isFastest && !laps[0].isSlowest
    ensures !AllEqual(splits) ==>
      (exists k :: 0 <= k < |laps| && laps[k].isFastest) &&
      (exists k :: 0 <= k < |laps| && laps[k].isSlowest)
    ensures forall j, k :: 0 <= j < |laps| && 0 <= k < |laps| && splits[j] == splits[k] ==>
      laps[j].isFastest == laps[k].isFastest && laps[j].isSlowest == laps[k].isSlowest
  {
    forall k | 0 <= k < |splits| && IsMinAt(splits, k) && IsMaxAt(splits, k) ensures AllEqual(splits) {
      assert forall j :: 0 <= j < |splits| ==> splits[j] == splits[k];
    }
    if !AllEqual(splits) {
      MinExists(splits);
      MaxExists(splits);
      var lo :| 0 <= lo < |splits| && IsMinAt(splits, lo);
      var hi :| 0 <= hi < |splits| && IsMaxAt(splits, hi);
      assert laps[lo].isFastest && laps[hi].isSlowest;
    }
  }

  // ---------------------------------------------------------------------
  // The recomputation in the lap handler

  predicate AllParsed(ds: seq<Option<nat>>)
  {
    forall k :: 0 <= k < |ds| ==> ds[k].Some?
  }

  function Values(ds: seq<Option<nat>>): seq<int>
    requires AllParsed(ds)
  {
    seq(|ds|, k requires 0 <= k < |ds| => ds[k].value)
  }

  /** `Math.min(...ds)` on a non-empty list: `NaN` as soon as one entry is
      `NaN`, otherwise the least entry. */
  function MathMin(ds: seq<Option<nat>>): (r: Option<nat>)
    requires |ds| > 0
    ensures r.Some? <==> AllParsed(ds)
    ensures r.Some? ==> exists k :: 0 <= k < |ds| && ds[k] == r
    ensures r.Some? ==> forall k :: 0 <= k < |ds| ==> r.value <= ds[k].value
    decreases |ds|
  {
    if |ds| == 1 then ds[0]
    else
      var rest := MathMin(ds[1..]);
      assert forall k :: 0 < k < |ds| ==> ds[k] == ds[1..][k - 1];
      if ds[0].None? || rest.None? then None
      else if ds[0].value <= rest.value then ds[0]
      else rest
  }

  /** `Math.max(...ds)` on a non-empty list: `NaN` as soon as one entry is
      `NaN`, otherwise the greatest entry. */
  function MathMax(ds: seq<Option<nat>>): (r: Option<nat>)
    requires |ds| > 0
    ensures r.Some? <==> AllParsed(ds)
    ensures r.Some? ==> exists k :: 0 <= k < |ds| && ds[k] == r
    ensures r.Some? ==> forall k :: 0 <= k < |ds| ==> ds[k].value <= r.value
    decreases |ds|
  {
    if |ds| == 1 then ds[0]
    else
      var rest := MathMax(ds[1..]);
      assert forall k :: 0 < k < |ds| ==> ds[k] == ds[1..][k - 1];
      if ds[0].None? || rest.None? then None
      else if ds[0].value >= rest.value then ds[0]
      else rest
  }

  /** `lapDurations`: every lap's split string read back into milliseconds. */
  function Durations(laps: seq<LapTime>): seq<Option<nat>>
  {
    seq(|laps|, k requires 0 <= k < |laps| => ParseSplitTime(laps[k].time))
  }

  /** The flags of one lap from its duration and the two extremes, with
      JavaScript's `===`, under which `NaN` equals nothing. */
  function Flagged(lap: LapTime, d: Option<nat>, lo: Option<nat>, hi: Option<nat>): LapTime
  {
    lap.(isFastest := StrictEq(d, lo) && !StrictEq(lo, hi),
         isSlowest := StrictEq(d, hi) && !StrictEq(lo, hi))
  }

  /** Comparing with `Math.min` and `Math.max` flags exactly the laps that
      `FlagsMatch` asks for, once every duration has been read. */
  lemma ExtremesFlag(ds: seq<Option<nat>>, k: nat)
    requires |ds| > 0 && AllParsed(ds) && k < |ds|
    ensures var lo, hi, v := MathMin(ds), MathMax(ds), Values(ds);
      StrictEq(lo, hi) == AllEqual(v) &&
      StrictEq(ds[k], lo) == IsMinAt(v, k) &&
      StrictEq(ds[k], hi) == IsMaxAt(v, k)
  {
    var lo, hi, v := MathMin(ds), MathMax(ds), Values(ds);
    if AllEqual(v) {
      var j :| 0 <= j < |ds| && ds[j] == lo;
      var l :| 0 <= l < |ds| && ds[l] == hi;
      assert v[j] == v[l];
    }
    if StrictEq(lo, hi) {
      forall j, l | 0 <= j < |v| && 0 <= l < |v| ensures v[j] == v[l] {
        assert lo.value <= v[j] <= hi.value && lo.value <= v[l] <= hi.value;
      }
    }
    if IsMinAt(v, k) {
      var j :| 0 <= j < |ds| && ds[j] == lo;
      assert v[k] <= v[j];
    }
    if IsMaxAt(v, k) {
      var j :| 0 <= j < |ds| && ds[j] == hi;
      assert v[j] <= v[k];
    }
  }

  /** The recomputation of the flags over the updated lap list: with two or
      more laps each lap is flagged against the least and the greatest
      duration; a single lap is left as it is. Nothing but the flags changes. */
  method RecomputeFlags(laps: seq<LapTime>) returns (r: seq<LapTime>)
    ensures |r| == |laps|
    ensures forall k :: 0 <= k < |laps| ==> SameEntry(r[k], laps[k])
    ensures |laps| <= 1 ==> r == laps
    ensures |laps| > 1 && AllParsed(Durations(laps)) ==> FlagsMatch(r, Values(Durations(laps)))
    ensures |laps| > 1 && !AllParsed(Durations(laps)) ==>
      forall k :: 0 <= k < |r| ==> !r[k].isFastest && !r[k].isSlowest
  {
    r := laps;
    if |laps| > 1 {
      var durations := Durations(laps);
      var lo := MathMin(durations);
      var hi := MathMax(durations);
      var i := 0;
      while i < |r|
        invariant 0 <= i <= |r| == |laps|
        invariant forall k :: 0 <= k < i ==> r[k] == Flagged(laps[k], durations[k], lo, hi)
        invariant forall k :: i <= k < |r| ==> r[k] == laps[k]
      {
        r := r[i := Flagged(r[i], durations[i], lo, hi)];
        i := i + 1;
      }
      if AllParsed(durations) {
        forall k | 0 <= k < |laps| ensures
          r[k].isFastest == (!AllEqual(Values(durations)) && IsMinAt(Values(durations), k)) &&
          r[k].isSlowest == (!AllEqual(Values(durations)) && IsMaxAt(Values(durations), k))
        {
          ExtremesFlag(durations, k);
        }
      }
    }
  }

  // ---------------------------------------------------------------------
  // The lap history
  //
  // The proofs below `hide` the bodies of `FormatTime` and the parsers where
  // only the facts proved about them are needed, so that the solver does not
  // unfold the division and remainder arithmetic of the display format.

  /** The cumulative time of the lap before the `k`-th, or 0 for the first. */
  function Before(totals: seq<nat>, k: nat): nat
    requires k < |totals|
  {
    if k == 0 then 0 else totals[k - 1]
  }

  /** The `k`-th lap as the lap handler records it when the laps are taken at
      the cumulative times `totals`: numbered after the one before, its total
      the time it was taken at, and its split the time since the previous lap
      (since the reset for the first one). */
  ghost predicate EntryAt(laps: seq<LapTime>, totals: seq<nat>, k: nat)
  {
    k < |laps| && k < |totals| &&
    Before(totals, k) <= totals[k] &&
    laps[k].id == k + 1 &&
    laps[k].totalTime == FormatTime(totals[k]) &&
    laps[k].time == FormatTime(totals[k] - Before(totals, k))
  }

  /** The number, split string and cumulative string of every lap, as the
      lap handler writes them lap after lap for laps taken at `totals`. */
  ghost predicate Entries(laps: seq<LapTime>, totals: seq<nat>)
  {
    |laps| == |totals| && forall k :: 0 <= k < |laps| ==> EntryAt(laps, totals, k)
  }

  /** The whole lap history, flags included. */
  ghost predicate Recorded(laps: seq<LapTime>, totals: seq<nat>)
  {
    Entries(laps, totals) && FlagsMatch(laps, Splits(totals))
  }

  /** What the history says about its `k`-th lap, split by split. */
  lemma EntriesAt(laps: seq<LapTime>, totals: seq<nat>, k: nat)
    requires Entries(laps, totals) && k < |laps|
    ensures laps[k].id == k + 1
    ensures laps[k].totalTime == FormatTime(totals[k])
    ensures Before(totals, k) <= totals[k] && laps[k].time == FormatTime(totals[k] - Before(totals, k))
    ensures Splits(totals)[k] == totals[k] - Before(totals, k)
  {
    hide FormatTime;
    assert EntryAt(laps, totals, k);
  }

  /** The cumulative times of a history never go down. */
  lemma EntriesNonDecreasing(laps: seq<LapTime>, totals: seq<nat>)
    requires Entries(laps, totals)
    ensures NonDecreasing(totals)
  {
    forall i | 0 < i < |totals| ensures totals[i - 1] <= totals[i] {
      assert EntryAt(laps, totals, i);
    }
  }

  /** The lap list as shown, newest first. */
  function NewestFirst(laps: seq<LapTime>): seq<LapTime>
  {
    seq(|laps|, i requires 0 <= i < |laps| => laps[|laps| - 1 - i])
  }

  /** Row `i` of the list shown newest first carries the label
      `#(length - i)`: that label is the number the lap was recorded with. */
  lemma ReversedLabels(laps: seq<LapTime>, totals: seq<nat>)
    requires Entries(laps, totals)
    ensures |NewestFirst(laps)| == |laps|
    ensures forall i :: 0 <= i < |laps| ==> NewestFirst(laps)[i].id == |laps| - i
  {
    hide FormatTime;
    forall i | 0 <= i < |laps| ensures NewestFirst(laps)[i].id == |laps| - i {
      assert EntryAt(laps, totals, |laps| - 1 - i);
    }
  }

  /** Appending the lap taken at `time` extends the history. */
  lemma EntriesAppend(laps: seq<LapTime>, totals: seq<nat>, newLap: LapTime, time: nat)
    requires Entries(laps, totals)
    requires PreviousTotal(totals) <= time
    requires newLap.id == |laps| + 1
    requires newLap.totalTime == FormatTime(time) && newLap.time == FormatTime(time - PreviousTotal(totals))
    ensures Entries(laps + [newLap], totals + [time])
  {
    hide FormatTime;
    var l, t := laps + [newLap], totals + [time];
    forall k | 0 <= k < |l| ensures EntryAt(l, t, k) {
      if k < |laps| {
        assert EntryAt(laps, totals, k);
        assert l[k] == laps[k] && t[k] == totals[k] && Before(t, k) == Before(totals, k);
      }
    }
  }

  /** The history does not depend on the flags. */
  lemma EntriesIgnoreFlags(laps: seq<LapTime>, other: seq<LapTime>, totals: seq<nat>)
    requires Entries(laps, totals)
    requires |other| == |laps| && forall k :: 0 <= k < |laps| ==> SameEntry(other[k], laps[k])
    ensures Entries(other, totals)
  {
    hide FormatTime;
    forall k | 0 <= k < |other| ensures EntryAt(other, totals, k) {
      assert EntryAt(laps, totals, k) && SameEntry(other[k], laps[k]);
    }
  }

  /** On the clock's 10 ms grid the split strings read back as exactly the
      splits, and the cumulative strings as exactly the cumulative times:
      the string detour of the lap handler is plain integer arithmetic. */
  lemma EntriesReadBack(laps: seq<LapTime>, totals: seq<nat>)
    requires Entries(laps, totals)
    requires forall k :: 0 <= k < |totals| ==> totals[k] % 10 == 0
    ensures AllParsed(Durations(laps)) && Values(Durations(laps)) == Splits(totals)
    ensures forall k :: 0 <= k < |laps| ==> ParseTotalTime(laps[k].totalTime) == Some(totals[k])
  {
    hide FormatTime, ParseSplitTime, ParseTotalTime;
    var s, ds := Splits(totals), Durations(laps);
    forall k | 0 <= k < |laps|
      ensures ParseSplitTime(laps[k].time) == Some(s[k])
      ensures ParseTotalTime(laps[k].totalTime) == Some(totals[k])
    {
      EntryReadsBack(laps, totals, k);
      assert s[k] == totals[k] - Before(totals, k);
    }
    assert forall k :: 0 <= k < |ds| ==> ds[k] == Some(s[k]);
    assert AllParsed(ds);
    assert Values(ds) == s;
  }

  /** The strings of the `k`-th lap read back as its split and its
      cumulative time. */
  lemma EntryReadsBack(laps: seq<LapTime>, totals: seq<nat>, k: nat)
    requires Entries(laps, totals) && k < |laps|
    requires forall j :: 0 <= j < |totals| ==> totals[j] % 10 == 0
    ensures Before(totals, k) <= totals[k]
    ensures ParseSplitTime(laps[k].time) == Some(totals[k] - Before(totals, k))
    ensures ParseTotalTime(laps[k].totalTime) == Some(totals[k])
  {
    hide FormatTime, ParseSplitTime, ParseTotalTime;
    EntriesAt(laps, totals, k);
    SplitOnGrid(totals, k);
    EntryReadBack(laps[k], totals[k], totals[k] - Before(totals, k));
  }

  /** The cumulative string of the last lap reads back as the time it was
      taken at, as the lap handler relies on. */
  lemma LastTotalReadBack(laps: seq<LapTime>, totals: seq<nat>)
    requires Entries(laps, totals) && laps != []
    requires PreviousTotal(totals) % 10 == 0
    ensures ParseTotalTime(laps[|laps| - 1].totalTime) == Some(PreviousTotal(totals))
  {
    hide FormatTime, ParseTotalTime;
    var n := |laps| - 1;
    assert EntryAt(laps, totals, n);
    ParseFormatExact(totals[n], totals[n]);
  }

  /** Splits between cumulative times on the 10 ms grid are on the grid. */
  lemma SplitOnGrid(totals: seq<nat>, k: nat)
    requires k < |totals| && Before(totals, k) <= totals[k]
    requires forall j :: 0 <= j < |totals| ==> totals[j] % 10 == 0
    ensures (totals[k] - Before(totals, k)) % 10 == 0
  {
    if k > 0 {
      var a: int, b: int := totals[k], totals[k - 1];
      assert a == 10 * (a / 10) && b == 10 * (b / 10);
      RemainderOf10(a - b, a / 10 - b / 10, 0);
    }
  }

  /** One lap's strings read back as its split and cumulative time. */
  lemma EntryReadBack(lap: LapTime, total: nat, split: nat)
    requires total % 10 == 0 && split % 10 == 0
    requires lap.totalTime == FormatTime(total) && lap.time == FormatTime(split)
    ensures ParseSplitTime(lap.time) == Some(split)
    ensures ParseTotalTime(lap.totalTime) == Some(total)
  {
    ParseFormatExact(total, total);
    ParseFormatExact(split, split);
  }

  /** The durations read back from the split strings add up to the
      cumulative time read back from the last lap. */
  lemma LapDurationsAddUp(laps: seq<LapTime>, totals: seq<nat>)
    requires Entries(laps, totals) && |laps| > 0
    requires forall k :: 0 <= k < |totals| ==> totals[k] % 10 == 0
    ensures AllParsed(Durations(laps))
    ensures ParseTotalTime(laps[|laps| - 1].totalTime) == Some(Sum(Values(Durations(laps))))
  {
    EntriesReadBack(laps, totals);
    SplitsTelescope(totals);
  }

  /** Two laps whose second split is shorter than the first (say at 1000 ms
      and at 1500 ms, splits 1000 and 500): the first lap is slowest and not
      fastest, the second fastest and not slowest. */
  lemma TwoLaps(laps: seq<LapTime>, first: nat, second: nat)
    requires Recorded(laps, [first, second])
    requires second - first < first
    ensures laps[0].id == 1 && laps[1].id == 2
    ensures first <= second && laps[1].time == FormatTime(second - first)
    ensures laps[0].isSlowest && !laps[0].isFastest
    ensures laps[1].isFastest && !laps[1].isSlowest
  {
    hide FormatTime;
    var s := Splits([first, second]);
    assert s[0] == first && s[1] == second - first;
    EntriesAt(laps, [first, second], 0);
    EntriesAt(laps, [first, second], 1);
    assert [first, second][1] - Before([first, second], 1) == second - first;
    TwoSplitFlags(laps, s);
  }

  lemma TwoSplitFlags(laps: seq<LapTime>, s: seq<int>)
    requires |laps| == |s| == 2 && FlagsMatch(laps, s) && s[1] < s[0]
    ensures laps[0].isSlowest && !laps[0].isFastest
    ensures laps[1].isFastest && !laps[1].isSlowest
  {
    assert !AllEqual(s) by { assert s[0] != s[1]; }
    assert IsMaxAt(s, 0) && IsMinAt(s, 1);
  }
}
