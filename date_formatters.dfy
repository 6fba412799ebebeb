/** The integer core of the date formatters: relative time and duration rendering. */
module DateFormatters {
  import opened Wrappers
  import opened JsNumber
  import opened Decimal
  import opened JsDate

  const MsPerMinute := 60000
  const MsPerHour := 3600000
  const MsPerDay := 86400000

  /** `${n} unit${n > 1 ? 's' : ''}` */
  function Counted(n: int, unit: string): string {
    DecimalString(n) + " " + unit + (if n > 1 then "s" else "")
  }

  /** The body of `toRelativeTime` once the difference of the time values is known. */
  function RelativeFromDiff(diffMs: int): string {
    var diffSeconds := diffMs / 1000;
    var diffMinutes := diffSeconds / 60;
    var diffHours := diffMinutes / 60;
    var diffDays := diffHours / 24;
    if Abs(diffDays) >= 1 then
      (if diffDays > 0 then "in " + Counted(diffDays, "day") else Counted(Abs(diffDays), "day") + " ago")
    else if Abs(diffHours) >= 1 then
      (if diffHours > 0 then "in " + Counted(diffHours, "hour") else Counted(Abs(diffHours), "hour") + " ago")
    else if Abs(diffMinutes) >= 1 then
      (if diffMinutes > 0 then "in " + Counted(diffMinutes, "minute") else Counted(Abs(diffMinutes), "minute") + " ago")
    else "just now"
  }

  /**
   * `toRelativeTime(date, baseDate)`. A NaN difference fails every comparison of the
   * cascade, so an invalid date yields "just now".
   */
  function ToRelativeTime(date: Date, baseDate: Date): string {
    match Sub(date.time, baseDate.time)
    case None => "just now"
    case Some(diffMs) => RelativeFromDiff(diffMs)
  }

  /** The nested floors are direct floor divisions of the difference. */
  lemma NestedFloors(diffMs: int)
    ensures diffMs / 1000 / 60 == diffMs / MsPerMinute
    ensures diffMs / 1000 / 60 / 60 == diffMs / MsPerHour
    ensures diffMs / 1000 / 60 / 60 / 24 == diffMs / MsPerDay
  {
  }

  /** The result depends on the two dates only through their difference. */
  lemma RelativeTimeShiftInvariant(t: int, base: int, k: int)
    ensures ToRelativeTime(Date(Some(t + k)), Date(Some(base + k))) == ToRelativeTime(Date(Some(t)), Date(Some(base)))
  {
  }

  /** An invalid date or base date is reported as "just now". */
  lemma RelativeTimeOfInvalid(date: Date, baseDate: Date)
    requires date.time.None? || baseDate.time.None?
    ensures ToRelativeTime(date, baseDate) == "just now"
  {
  }

  /** "just now" exactly for a difference in [0, 60000): every other branch prints a number first or "in ". */
  lemma {:induction false} JustNowIff(diffMs: int)
    ensures RelativeFromDiff(diffMs) == "just now" <==> 0 <= diffMs < MsPerMinute
  {
    NestedFloors(diffMs);
    var r := RelativeFromDiff(diffMs);
    if diffMs < 0 {
      var n := -(diffMs / MsPerDay);
      RelativeTimePast(diffMs, n);
      DecimalStringFacts(n, n);
      assert r[0] == DecimalString(n)[0];
    } else if diffMs >= MsPerDay {
      RelativeTimeFutureDays(diffMs, diffMs / MsPerDay);
      assert r[0] == 'i';
    } else if diffMs >= MsPerHour {
      RelativeTimeFutureHours(diffMs, diffMs / MsPerHour);
      assert r[0] == 'i';
    } else if diffMs >= MsPerMinute {
      RelativeTimeFutureMinutes(diffMs, diffMs / MsPerMinute);
      assert r[0] == 'i';
    }
  }

  /**
   * Every negative difference, even -1 ms, is reported in whole days: the hour and
   * minute "ago" branches are unreachable.
   */
  lemma {:induction false} RelativeTimePast(diffMs: int, n: int)
    requires n >= 1 && -n * MsPerDay <= diffMs < -(n - 1) * MsPerDay
    ensures RelativeFromDiff(diffMs) == DecimalString(n) + " day" + (if n > 1 then "s" else "") + " ago"
  {
    NestedFloors(diffMs);
    assert diffMs / MsPerDay == -n;
  }

  /** The past case covers every negative difference, with n the negated floored day quotient. */
  lemma PastIsDays(diffMs: int)
    requires diffMs < 0
    ensures -(diffMs / MsPerDay) >= 1
    ensures RelativeFromDiff(diffMs) == Counted(-(diffMs / MsPerDay), "day") + " ago"
  {
    RelativeTimePast(diffMs, -(diffMs / MsPerDay));
  }

  /** A difference of n to n+1 days ahead reads "in n day(s)". */
  lemma {:induction false} RelativeTimeFutureDays(diffMs: int, n: int)
    requires n >= 1 && n * MsPerDay <= diffMs < (n + 1) * MsPerDay
    ensures RelativeFromDiff(diffMs) == "in " + DecimalString(n) + " day" + (if n > 1 then "s" else "")
  {
    NestedFloors(diffMs);
    assert diffMs / MsPerDay == n;
  }

  /** A difference of n to n+1 hours ahead, below a day, reads "in n hour(s)". */
  lemma {:induction false} RelativeTimeFutureHours(diffMs: int, n: int)
    requires 1 <= n < 24 && n * MsPerHour <= diffMs < (n + 1) * MsPerHour
    ensures RelativeFromDiff(diffMs) == "in " + DecimalString(n) + " hour" + (if n > 1 then "s" else "")
  {
    NestedFloors(diffMs);
    assert diffMs / MsPerHour == n;
    assert diffMs / MsPerDay == 0;
  }

  /** A difference of n to n+1 minutes ahead, below an hour, reads "in n minute(s)". */
  lemma {:induction false} RelativeTimeFutureMinutes(diffMs: int, n: int)
    requires 1 <= n < 60 && n * MsPerMinute <= diffMs < (n + 1) * MsPerMinute
    ensures RelativeFromDiff(diffMs) == "in " + DecimalString(n) + " minute" + (if n > 1 then "s" else "")
  {
    NestedFloors(diffMs);
    assert diffMs / MsPerMinute == n;
    assert diffMs / MsPerHour == 0;
    assert diffMs / MsPerDay == 0;
  }

  /** The unit word is plural exactly when the count exceeds one. */
  lemma CountedPlural(n: int, unit: string)
    ensures Counted(n, unit) == DecimalString(n) + " " + unit + "s" <==> n > 1
  {
    if n <= 1 {
      assert |Counted(n, unit)| == |DecimalString(n) + " " + unit|;
    }
  }

  lemma RelativeTimeHoursExample()
    ensures ToRelativeTime(Date(Some(7200000)), Date(Some(0))) == "in 2 hours"
  {
    RelativeTimeFutureHours(7200000, 2);
  }

  lemma RelativeTimeDaysExample()
    ensures ToRelativeTime(Date(Some(3 * MsPerDay)), Date(Some(0))) == "in 3 days"
  {
    RelativeTimeFutureDays(3 * MsPerDay, 3);
  }

  lemma RelativeTimeMinutesExample()
    ensures ToRelativeTime(Date(Some(90000)), Date(Some(0))) == "in 1 minute"
  {
    RelativeTimeFutureMinutes(90000, 1);
  }

  lemma RelativeTimePastExamples()
    ensures ToRelativeTime(Date(Some(0)), Date(Some(MsPerDay))) == "1 day ago"
    ensures ToRelativeTime(Date(Some(999)), Date(Some(1000))) == "1 day ago"
    ensures ToRelativeTime(Date(Some(59999)), Date(Some(0))) == "just now"
  {
    RelativeTimePast(-MsPerDay, 1);
    RelativeTimePast(-1, 1);
    JustNowIff(59999);
  }

  // ------------------------------------------- relative time, as evidently intended

  /**
   * The relative-time cascade with `Math.trunc` in place of `Math.floor`: units are
   * counted toward zero, so a past difference is classified by its magnitude as a
   * future one is.
   */
  function RelativeFromDiffTruncated(diffMs: int): string {
    var diffSeconds := TruncDiv(diffMs, 1000);
    var diffMinutes := TruncDiv(diffSeconds, 60);
    var diffHours := TruncDiv(diffMinutes, 60);
    var diffDays := TruncDiv(diffHours, 24);
    if Abs(diffDays) >= 1 then
      (if diffDays > 0 then "in " + Counted(diffDays, "day") else Counted(Abs(diffDays), "day") + " ago")
    else if Abs(diffHours) >= 1 then
      (if diffHours > 0 then "in " + Counted(diffHours, "hour") else Counted(Abs(diffHours), "hour") + " ago")
    else if Abs(diffMinutes) >= 1 then
      (if diffMinutes > 0 then "in " + Counted(diffMinutes, "minute") else Counted(Abs(diffMinutes), "minute") + " ago")
    else "just now"
  }

  /** The nested truncations are direct truncations of the difference. */
  lemma NestedTruncs(diffMs: int)
    ensures TruncDiv(TruncDiv(diffMs, 1000), 60) == TruncDiv(diffMs, MsPerMinute)
    ensures TruncDiv(TruncDiv(TruncDiv(diffMs, 1000), 60), 60) == TruncDiv(diffMs, MsPerHour)
    ensures TruncDiv(TruncDiv(TruncDiv(TruncDiv(diffMs, 1000), 60), 60), 24) == TruncDiv(diffMs, MsPerDay)
  {
  }

  /** As written, two hours in the past reads "1 day ago"; truncating gives "2 hours ago". */
  lemma TwoHoursAgoExample()
    ensures RelativeFromDiff(-2 * MsPerHour) == "1 day ago"
    ensures RelativeFromDiffTruncated(-2 * MsPerHour) == "2 hours ago"
  {
    RelativeTimePast(-2 * MsPerHour, 1);
    NestedTruncs(-2 * MsPerHour);
  }

  /** On the future side, and at zero, the truncating cascade is the code as written. */
  lemma TruncatedAgreesOnFuture(diffMs: int)
    requires diffMs >= 0
    ensures RelativeFromDiffTruncated(diffMs) == RelativeFromDiff(diffMs)
  {
  }

  /** The past reads as the mirror of the future: "in X" becomes "X ago". */
  lemma {:induction false} TruncatedMirror(diffMs: int)
    requires diffMs >= MsPerMinute
    ensures RelativeFromDiffTruncated(diffMs)[..3] == "in "
    ensures RelativeFromDiffTruncated(-diffMs) == RelativeFromDiffTruncated(diffMs)[3..] + " ago"
  {
    NestedTruncs(diffMs);
    NestedTruncs(-diffMs);
    var body := MirrorBody(diffMs);
    if diffMs >= MsPerDay {
      assert TruncDiv(-diffMs, MsPerDay) == -(diffMs / MsPerDay) <= -1;
    } else if diffMs >= MsPerHour {
      assert TruncDiv(-diffMs, MsPerDay) == 0 && TruncDiv(-diffMs, MsPerHour) == -(diffMs / MsPerHour) <= -1;
    } else {
      assert TruncDiv(-diffMs, MsPerDay) == 0 && TruncDiv(-diffMs, MsPerHour) == 0;
      assert TruncDiv(-diffMs, MsPerMinute) == -(diffMs / MsPerMinute) <= -1;
    }
    assert RelativeFromDiffTruncated(diffMs) == "in " + body;
    assert RelativeFromDiffTruncated(-diffMs) == body + " ago";
    assert ("in " + body)[3..] == body;
  }

  /** The counted unit shown for a difference of at least a minute. */
  function MirrorBody(diffMs: int): string
    requires diffMs >= MsPerMinute
  {
    if diffMs >= MsPerDay then Counted(diffMs / MsPerDay, "day")
    else if diffMs >= MsPerHour then Counted(diffMs / MsPerHour, "hour")
    else Counted(diffMs / MsPerMinute, "minute")
  }

  /** With truncation, "just now" is exactly a difference of under a minute either way. */
  lemma TruncatedJustNowIff(diffMs: int)
    ensures RelativeFromDiffTruncated(diffMs) == "just now" <==> -MsPerMinute < diffMs < MsPerMinute
  {
    NestedTruncs(diffMs);
    if diffMs >= MsPerMinute {
      TruncatedMirror(diffMs);
      assert RelativeFromDiffTruncated(diffMs)[0] == 'i';
    } else if diffMs <= -MsPerMinute {
      TruncatedMirror(-diffMs);
      var r := RelativeFromDiffTruncated(diffMs);
      assert r[|r| - 1] == 'o';
    }
  }

  /**
   * `formatDuration(durationMs)`. `%` is JavaScript's truncating remainder, which matters
   * only on the negative branch, where it is never displayed.
   */
  function FormatDuration(durationMs: int): string {
    var seconds := durationMs / 1000;
    var minutes := seconds / 60;
    var hours := minutes / 60;
    var days := hours / 24;
    if days > 0 then
      DecimalString(days) + "d " + DecimalString(JsRem(hours, 24)) + "h " + DecimalString(JsRem(minutes, 60)) + "m " + DecimalString(JsRem(seconds, 60)) + "s"
    else if hours > 0 then
      DecimalString(hours) + "h " + DecimalString(JsRem(minutes, 60)) + "m " + DecimalString(JsRem(seconds, 60)) + "s"
    else if minutes > 0 then
      DecimalString(minutes) + "m " + DecimalString(JsRem(seconds, 60)) + "s"
    else
      DecimalString(seconds) + "s"
  }

  /** Reference rendering of a duration of d days, h hours, m minutes and s seconds: from the largest non-zero unit down. */
  function RenderDuration(d: nat, h: nat, m: nat, s: nat): string {
    if d > 0 then DecimalString(d) + "d " + DecimalString(h) + "h " + DecimalString(m) + "m " + DecimalString(s) + "s"
    else if h > 0 then DecimalString(h) + "h " + DecimalString(m) + "m " + DecimalString(s) + "s"
    else if m > 0 then DecimalString(m) + "m " + DecimalString(s) + "s"
    else DecimalString(s) + "s"
  }

  /**
   * For a non-negative duration, the fields shown are the decomposition of its whole
   * seconds into days, hours below 24, minutes below 60 and seconds below 60.
   */
  lemma {:induction false} FormatDurationFields(durationMs: int, d: nat, h: nat, m: nat, s: nat)
    requires durationMs >= 0 && h < 24 && m < 60 && s < 60
    requires d * 86400 + h * 3600 + m * 60 + s == durationMs / 1000
    ensures FormatDuration(durationMs) == RenderDuration(d, h, m, s)
  {
    var seconds := durationMs / 1000;
    assert seconds / 60 == d * 1440 + h * 60 + m;
    assert seconds / 60 / 60 == d * 24 + h;
    assert seconds / 60 / 60 / 24 == d;
    assert JsRem(seconds, 60) == s;
    assert JsRem(seconds / 60, 60) == m;
    assert JsRem(seconds / 60 / 60, 24) == h;
  }

  /** Every non-negative duration has such a decomposition: the shown fields recombine to its whole seconds. */
  lemma FormatDurationRecombines(durationMs: int)
    requires durationMs >= 0
    ensures exists d: nat, h: nat, m: nat, s: nat ::
      h < 24 && m < 60 && s < 60 && d * 86400 + h * 3600 + m * 60 + s == durationMs / 1000 &&
      FormatDuration(durationMs) == RenderDuration(d, h, m, s)
  {
    var sec := durationMs / 1000;
    var mins := sec / 60;
    var hours := mins / 60;
    var d, h, m, s := hours / 24, hours % 24, mins % 60, sec % 60;
    assert sec == mins * 60 + s && mins == hours * 60 + m && hours == d * 24 + h;
    assert d * 86400 + h * 3600 + m * 60 + s == ((d * 24 + h) * 60 + m) * 60 + s;
    FormatDurationFields(durationMs, d, h, m, s);
  }

  /** A negative duration is shown in seconds only, as the negative floored second count. */
  lemma FormatDurationNegative(durationMs: int)
    requires durationMs < 0
    ensures durationMs / 1000 < 0
    ensures FormatDuration(durationMs) == DecimalString(durationMs / 1000) + "s"
  {
  }

  lemma FormatDurationDaysExample()
    ensures FormatDuration(90061000) == "1d 1h 1m 1s"
  {
    FormatDurationFields(90061000, 1, 1, 1, 1);
  }

  lemma FormatDurationHoursExample()
    ensures FormatDuration(3600000) == "1h 0m 0s"
  {
    FormatDurationFields(3600000, 0, 1, 0, 0);
  }

  lemma FormatDurationMinutesExample()
    ensures FormatDuration(61000) == "1m 1s"
  {
    FormatDurationFields(61000, 0, 0, 1, 1);
  }

  lemma FormatDurationSecondsExamples()
    ensures FormatDuration(-1) == "-1s"
    ensures FormatDuration(0) == "0s"
  {
  }
}
