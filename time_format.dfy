/** The stopwatch's display format `MM:SS.CC` (minutes, seconds,
    centiseconds) and the two routines that read such a string back into
    milliseconds. */
module TimeFormat {
  import opened Wrappers
  import opened JsStrings

  /** One field of the display: the decimal rendering, zero-padded to two digits. */
  function Field(n: nat): string
  {
    PadStart2(NatToDigits(n))
  }

  /** `formatTime`: whole minutes, then seconds within the minute, then
      hundredths within the second, each truncated, never rounded. */
  function FormatTime(ms: nat): string
  {
    Display(ms / 60000, (ms % 60000) / 1000, (ms % 1000) / 10)
  }

  /** The template `${MM}:${SS}.${CC}` filled with three padded fields. */
  function Display(minutes: nat, seconds: nat, centis: nat): string
  {
    Field(minutes) + ":" + Field(seconds) + "." + Field(centis)
  }

  /** The inline parser inside the lap handler that reads the previous lap's
      cumulative time: split on ':' and fold the parts, the first part as
      minutes and every later part as `seconds.centis`. */
  function ParseTotalTime(s: string): Option<nat>
  {
    ReduceParts(Split(s, ':'), 0, Some(0))
  }

  /** The `reduce` over the parts, `index` being the position of `parts[0]`. */
  function ReduceParts(parts: seq<string>, index: nat, acc: Option<nat>): Option<nat>
    decreases |parts|
  {
    if parts == [] then acc
    else ReduceParts(parts[1..], index + 1, ReduceStep(acc, parts[0], index))
  }

  /** The reducer's callback. A missing `ms` piece is `undefined`, which
      `parseInt` turns into `NaN`. */
  function ReduceStep(acc: Option<nat>, part: string, index: nat): Option<nat>
  {
    if index == 0 then
      match ParseInt(part)
      case Some(m) => Some(m * 60000)
      case None => None
    else
      var pieces := Split(part, '.');
      if |pieces| < 2 || acc.None? then None
      else
        match (ParseInt(pieces[0]), ParseInt(pieces[1]))
        case (Some(sec), Some(cs)) => Some(acc.value + sec * 1000 + cs * 10)
        case _ => None
  }

  /** The inline parser that turns each lap's split string into a duration:
      `[min, secMs] = s.split(':')`, `[sec, ms] = secMs.split('.')`.
      `None` stands for `NaN`, and also for the case where `secMs` is
      missing (a string without ':'), which the source would not survive. */
  function ParseSplitTime(s: string): Option<nat>
  {
    var parts := Split(s, ':');
    if |parts| < 2 then None
    else
      var pieces := Split(parts[1], '.');
      if |pieces| < 2 then None
      else
        match (ParseInt(parts[0]), ParseInt(pieces[0]), ParseInt(pieces[1]))
        case (Some(m), Some(sec), Some(cs)) => Some(m * 60000 + sec * 1000 + cs * 10)
        case _ => None
  }

  /** The shape `\d{2,}:\d{2}\.\d{2}`. */
  predicate IsTimeString(s: string)
  {
    |s| >= 8 && s[|s| - 6] == ':' && s[|s| - 3] == '.' &&
    AllDigits(s[..|s| - 6]) && AllDigits(s[|s| - 5..|s| - 3]) && AllDigits(s[|s| - 2..])
  }

  /** `s` has the shape `\d{2,}:\d{2}\.\d{2}` and its three fields read as
      the given numbers. */
  predicate ShowsFields(s: string, minutes: nat, seconds: nat, centis: nat)
  {
    IsTimeString(s) &&
    DigitsValue(s[..|s| - 6]) == minutes &&
    DigitsValue(s[|s| - 5..|s| - 3]) == seconds &&
    DigitsValue(s[|s| - 2..]) == centis
  }

  /** What a field holds: digits only, at least two of them, exactly two
      below 100, and `parseInt` reads back the number. */
  lemma FieldFacts(n: nat)
    ensures AllDigits(Field(n)) && |Field(n)| >= 2
    ensures n < 100 ==> |Field(n)| == 2
    ensures ':' !in Field(n) && '.' !in Field(n)
    ensures ParseInt(Field(n)) == Some(n) && DigitsValue(Field(n)) == n
  {
    ParsePadded(n);
  }

  /** Keeping the three truncated fields loses exactly the milliseconds below 10. */
  lemma TruncatedFields(ms: nat)
    ensures (ms / 60000) * 60000 + ((ms % 60000) / 1000) * 1000 + ((ms % 1000) / 10) * 10
            == ms - ms % 10
    ensures (ms % 60000) / 1000 < 60 && (ms % 1000) / 10 < 100
  {
    var a, r := ms / 60000, ms % 60000;
    var b, c := r / 1000, r % 1000;
    var d, e := c / 10, c % 10;
    RemainderOf1000(ms, 60 * a + b, c);
    RemainderOf10(ms, 6000 * a + 100 * b + d, e);
  }

  lemma RemainderOf1000(x: int, q: int, r: int)
    requires 0 <= r < 1000 && x == 1000 * q + r
    ensures x % 1000 == r
  {
  }

  lemma RemainderOf10(x: int, q: int, r: int)
    requires 0 <= r < 10 && x == 10 * q + r
    ensures x % 10 == r
  {
  }

  /** A display with seconds and hundredths in range has the shape
      `\d{2,}:\d{2}\.\d{2}`, and its three fields read back as given. */
  lemma DisplayShape(minutes: nat, seconds: nat, centis: nat)
    requires seconds < 100 && centis < 100
    ensures ShowsFields(Display(minutes, seconds, centis), minutes, seconds, centis)
  {
    var mm, ss, cc := Field(minutes), Field(seconds), Field(centis);
    FieldFacts(minutes);
    FieldFacts(seconds);
    FieldFacts(centis);
    assert Display(minutes, seconds, centis) == mm + ":" + ss + "." + cc;
    SliceFields(mm, ss, cc);
  }

  /** Where the three fields sit in `MM:SS.CC` when the last two have two characters. */
  lemma SliceFields(mm: string, ss: string, cc: string)
    requires |ss| == 2 && |cc| == 2
    ensures var s := mm + ":" + ss + "." + cc;
      |s| == |mm| + 6 && s[..|s| - 6] == mm && s[|s| - 6] == ':' &&
      s[|s| - 5..|s| - 3] == ss && s[|s| - 3] == '.' && s[|s| - 2..] == cc
  {
    var s := mm + ":" + ss + "." + cc;
    var n := |mm|;
    assert s[..n] == mm;
    assert s[n + 1..n + 3] == ss;
    assert s[n + 4..] == cc;
  }

  /** `formatTime(ms)` has the shape `\d{2,}:\d{2}\.\d{2}`; its minute field
      reads as the whole minutes, its second field is below 60 and its
      centisecond field is the hundredths, truncated. */
  lemma FormatTimeShape(ms: nat)
    ensures ShowsFields(FormatTime(ms), ms / 60000, (ms % 60000) / 1000, (ms % 1000) / 10)
    ensures (ms % 60000) / 1000 < 60 && (ms % 1000) / 10 < 100
  {
    var a, b, c := ms / 60000, (ms % 60000) / 1000, (ms % 1000) / 10;
    TruncatedFields(ms);
    assert b < 60 && c < 100;
    DisplayShape(a, b, c);
    assert FormatTime(ms) == Display(a, b, c);
  }

  /** The fields the sample displays below are made of. */
  lemma FieldSamples()
    ensures Field(0) == "00" && Field(1) == "01" && Field(59) == "59" && Field(100) == "100"
  {
    assert NatToDigits(0) == "0" && PadStart2("0") == PadStart2("00") == "00";
    assert NatToDigits(1) == "1" && PadStart2("1") == PadStart2("01") == "01";
    assert NatToDigits(59) == NatToDigits(5) + "9" == "59";
    assert NatToDigits(100) == NatToDigits(10) + "0" == "100";
  }

  /** A stopwatch at rest shows zeros in every field. */
  lemma FormatTimeZero()
    ensures FormatTime(0) == "00:00.00"
  {
    FieldSamples();
    assert FormatTime(0) == Display(0, 0, 0);
  }

  /** A minute and a second fill the first two fields. */
  lemma FormatTimeMinuteSecond()
    ensures FormatTime(61000) == "01:01.00"
  {
    FieldSamples();
    assert FormatTime(61000) == Display(1, 1, 0);
  }

  /** 599 ms show 59 hundredths: the last digit is truncated, not rounded. */
  lemma FormatTimeTruncates()
    ensures FormatTime(599) == "00:00.59"
  {
    FieldSamples();
    assert FormatTime(599) == Display(0, 0, 59);
  }

  /** 100 minutes keep their three digits: padding never truncates. */
  lemma FormatTimeWideMinutes()
    ensures FormatTime(6000000) == "100:00.00"
  {
    FieldSamples();
    assert FormatTime(6000000) == Display(100, 0, 0);
  }

  /** A display split on ':' falls into the minute field and the `SS.CC`
      part, and that part split on '.' into the two remaining fields. */
  lemma DisplaySplits(minutes: nat, seconds: nat, centis: nat)
    ensures var mm, ss, cc := Field(minutes), Field(seconds), Field(centis);
      Split(Display(minutes, seconds, centis), ':') == [mm, ss + "." + cc] &&
      Split(ss + "." + cc, '.') == [ss, cc]
  {
    FieldFacts(minutes);
    FieldFacts(seconds);
    FieldFacts(centis);
    SplitFields(Field(minutes), Field(seconds), Field(centis));
  }

  /** `MM:SS.CC` split on ':' and then on '.', for fields free of both separators. */
  lemma SplitFields(mm: string, ss: string, cc: string)
    requires ':' !in mm && ':' !in ss && ':' !in cc && '.' !in ss && '.' !in cc
    ensures Split(mm + ":" + ss + "." + cc, ':') == [mm, ss + "." + cc]
    ensures Split(ss + "." + cc, '.') == [ss, cc]
  {
    var rest := ss + "." + cc;
    assert mm + ":" + ss + "." + cc == mm + [':'] + rest;
    assert ':' !in rest;
    SplitAtFirst(mm, ':', rest);
    SplitWithoutSeparator(rest, ':');
    assert rest == ss + ['.'] + cc;
    SplitAtFirst(ss, '.', cc);
    SplitWithoutSeparator(cc, '.');
  }

  /** The `reduce` parser reads the three fields of a display back as milliseconds. */
  lemma ParseTotalTimeDisplay(minutes: nat, seconds: nat, centis: nat)
    ensures ParseTotalTime(Display(minutes, seconds, centis)) == Some(minutes * 60000 + seconds * 1000 + centis * 10)
  {
    var mm, ss, cc := Field(minutes), Field(seconds), Field(centis);
    FieldFacts(minutes);
    FieldFacts(seconds);
    FieldFacts(centis);
    DisplaySplits(minutes, seconds, centis);
    var rest := ss + "." + cc;
    var acc := ReduceStep(Some(0), mm, 0);
    assert acc == Some(minutes * 60000);
    assert ReduceParts([mm, rest], 0, Some(0)) == ReduceParts([rest], 1, acc);
    assert ReduceParts([rest], 1, acc) == ReduceParts([], 2, ReduceStep(acc, rest, 1));
  }

  /** The `map` parser reads the three fields of a display back as milliseconds. */
  lemma ParseSplitTimeDisplay(minutes: nat, seconds: nat, centis: nat)
    ensures ParseSplitTime(Display(minutes, seconds, centis)) == Some(minutes * 60000 + seconds * 1000 + centis * 10)
  {
    var mm, ss, cc := Field(minutes), Field(seconds), Field(centis);
    FieldFacts(minutes);
    FieldFacts(seconds);
    FieldFacts(centis);
    DisplaySplits(minutes, seconds, centis);
    var parts := Split(Display(minutes, seconds, centis), ':');
    assert parts[0] == mm && parts[1] == ss + "." + cc;
    var pieces := Split(parts[1], '.');
    assert pieces[0] == ss && pieces[1] == cc;
  }

  /** Without a ':' the `reduce` parser sees only its minute part, so a bare
      number such as "5" reads as that many minutes. */
  lemma ParseTotalTimeMinutesOnly(s: string)
    requires ':' !in s
    ensures ParseInt(s).Some? ==> ParseTotalTime(s) == Some(ParseInt(s).value * 60000)
    ensures ParseInt(s).None? ==> ParseTotalTime(s) == None
  {
    SplitWithoutSeparator(s, ':');
    assert [s][1..] == [];
    assert ParseTotalTime(s) == ReduceParts([], 1, ReduceStep(Some(0), s, 0));
  }

  /** The `map` parser needs a ':' ... */
  lemma ParseSplitTimeNeedsColon(s: string)
    requires ':' !in s
    ensures ParseSplitTime(s) == None
  {
    SplitWithoutSeparator(s, ':');
  }

  /** ... and a '.' after it. */
  lemma ParseSplitTimeNeedsDot(minutes: string, rest: string)
    requires ':' !in minutes && ':' !in rest && '.' !in rest
    ensures ParseSplitTime(minutes + [':'] + rest) == None
  {
    SplitAtFirst(minutes, ':', rest);
    SplitWithoutSeparator(rest, ':');
    SplitWithoutSeparator(rest, '.');
  }

  /** The `reduce` parser undoes `formatTime` up to truncation to 10 ms. */
  lemma ParseTotalTimeRoundTrip(ms: nat)
    ensures ParseTotalTime(FormatTime(ms)) == Some(ms - ms % 10)
  {
    TruncatedFields(ms);
    ParseTotalTimeDisplay(ms / 60000, (ms % 60000) / 1000, (ms % 1000) / 10);
  }

  /** The `map` parser undoes `formatTime` up to truncation to 10 ms. */
  lemma ParseSplitTimeRoundTrip(ms: nat)
    ensures ParseSplitTime(FormatTime(ms)) == Some(ms - ms % 10)
  {
    TruncatedFields(ms);
    ParseSplitTimeDisplay(ms / 60000, (ms % 60000) / 1000, (ms % 1000) / 10);
  }

  /** On multiples of 10, the quantum of the clock, both parsers are exact
      inverses of `formatTime`, which is therefore injective there. */
  lemma ParseFormatExact(ms: nat, other: nat)
    requires ms % 10 == 0 && other % 10 == 0
    ensures ParseTotalTime(FormatTime(ms)) == Some(ms)
    ensures ParseSplitTime(FormatTime(ms)) == Some(ms)
    ensures FormatTime(ms) == FormatTime(other) <==> ms == other
  {
    ParseTotalTimeRoundTrip(ms);
    ParseSplitTimeRoundTrip(ms);
    ParseSplitTimeRoundTrip(other);
  }
}
