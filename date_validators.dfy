/** The date validators: NaN guards, time-value comparisons and host calendar fields. */
module DateValidators {
  import opened Chars
  import opened JsNumber
  import opened JsDate

  /** `isValidDate`: a `Date` whose time value is not NaN. */
  predicate IsValidDate(d: Date) {
    d.time.Some?
  }

  /** The fixed part of the ISO pattern, one position per character; `d` stands for `\d`. */
  const IsoDateTimeTemplate: string := "dddd-dd-ddTdd:dd:dd"

  predicate FitsTemplate(s: string, t: string) {
    |s| == |t| && forall i :: 0 <= i < |s| ==> if t[i] == 'd' then IsDigit(s[i]) else s[i] == t[i]
  }

  /** `(\.\d{3})?Z?` matching a whole string. */
  predicate IsIsoSuffix(s: string) {
    || s == []
    || s == "Z"
    || (|s| >= 4 && s[0] == '.' && IsDigit(s[1]) && IsDigit(s[2]) && IsDigit(s[3]) && (|s| == 4 || s[4..] == "Z"))
  }

  /** `/^\d{4}-\d{2}-\d{2}T\d{2}:\d{2}:\d{2}(\.\d{3})?Z?$/.test(s)` */
  predicate MatchesIsoPattern(s: string) {
    |s| >= 19 && FitsTemplate(s[..19], IsoDateTimeTemplate) && IsIsoSuffix(s[19..])
  }

  /** `isISOString`: the pattern matches and the host parses the text to a valid time value. */
  predicate IsISOString(h: Host, s: string) {
    MatchesIsoPattern(s) && h.parse(s).Some?
  }

  /** `isPast`: strictly before the base date. */
  predicate IsPast(date: Date, baseDate: Date) {
    IsValidDate(date) && Less(date.time, baseDate.time)
  }

  /** `isFuture`: strictly after the base date. */
  predicate IsFuture(date: Date, baseDate: Date) {
    IsValidDate(date) && Less(baseDate.time, date.time)
  }

  /** `isToday`: the same `toDateString()` as the base date. */
  predicate IsToday(h: Host, date: Date, baseDate: Date) {
    IsValidDate(date) && ToDateString(h, date) == ToDateString(h, baseDate)
  }

  /** `isYesterday`: the same `toDateString()` as a copy of the base date moved one day back. */
  predicate IsYesterday(h: Host, date: Date, baseDate: Date) {
    IsValidDate(date) && ToDateString(h, date) == ToDateString(h, ShiftedCopy(h, baseDate, -1))
  }

  /** `isTomorrow`: the same `toDateString()` as a copy of the base date moved one day ahead. */
  predicate IsTomorrow(h: Host, date: Date, baseDate: Date) {
    IsValidDate(date) && ToDateString(h, date) == ToDateString(h, ShiftedCopy(h, baseDate, 1))
  }

  /** `isInRange` */
  predicate IsInRange(date: Date, startDate: Date, endDate: Date) {
    if !IsValidDate(date) || !IsValidDate(startDate) || !IsValidDate(endDate) then false
    else date.time.value >= startDate.time.value && date.time.value <= endDate.time.value
  }

  /** `isWeekend`: `getDay()` is 0 (Sunday) or 6 (Saturday). */
  predicate IsWeekend(h: Host, date: Date) {
    IsValidDate(date) && (h.weekDay(date.time.value) == 0 || h.weekDay(date.time.value) == 6)
  }

  /** `isWeekday`: `getDay()` is 1 (Monday) to 5 (Friday). */
  predicate IsWeekday(h: Host, date: Date) {
    IsValidDate(date) && h.weekDay(date.time.value) >= 1 && h.weekDay(date.time.value) <= 5
  }

  /** `isLeapYear`, with JavaScript's remainder. */
  predicate IsLeapYear(year: int) {
    (JsRem(year, 4) == 0 && JsRem(year, 100) != 0) || JsRem(year, 400) == 0
  }

  /** `isSameDay` */
  predicate IsSameDay(h: Host, date1: Date, date2: Date) {
    IsValidDate(date1) && IsValidDate(date2) && ToDateString(h, date1) == ToDateString(h, date2)
  }

  /** `isSameMonth` */
  predicate IsSameMonth(h: Host, date1: Date, date2: Date) {
    && IsValidDate(date1) && IsValidDate(date2)
    && h.fullYear(date1.time.value) == h.fullYear(date2.time.value)
    && h.month(date1.time.value) == h.month(date2.time.value)
  }

  /** `isSameYear` */
  predicate IsSameYear(h: Host, date1: Date, date2: Date) {
    IsValidDate(date1) && IsValidDate(date2) && h.fullYear(date1.time.value) == h.fullYear(date2.time.value)
  }

  /** Every predicate is false of an invalid date in any of the positions it checks. */
  lemma InvalidDateRejected(h: Host, bad: Date, d: Date, e: Date)
    requires !IsValidDate(bad)
    ensures !IsPast(bad, d) && !IsFuture(bad, d) && !IsPast(d, bad) && !IsFuture(d, bad)
    ensures !IsToday(h, bad, d) && !IsYesterday(h, bad, d) && !IsTomorrow(h, bad, d)
    ensures !IsInRange(bad, d, e) && !IsInRange(d, bad, e) && !IsInRange(d, e, bad)
    ensures !IsWeekend(h, bad) && !IsWeekday(h, bad)
    ensures !IsSameDay(h, bad, d) && !IsSameDay(h, d, bad)
    ensures !IsSameMonth(h, bad, d) && !IsSameMonth(h, d, bad)
    ensures !IsSameYear(h, bad, d) && !IsSameYear(h, d, bad)
  {
  }

  /**
   * With a host whose date strings are never "Invalid Date", an invalid base date
   * makes today, yesterday and tomorrow false as well.
   */
  lemma InvalidBaseRejected(h: Host, d: Date, bad: Date)
    requires WellFormed(h) && !IsValidDate(bad)
    ensures !IsToday(h, d, bad) && !IsYesterday(h, d, bad) && !IsTomorrow(h, d, bad)
  {
    if IsValidDate(d) {
      ValidDateText(h, d);
    }
  }

  /** Past and future are strict and exclusive, and both fail at equal time values. */
  lemma PastFutureExclusive(date: Date, baseDate: Date)
    ensures !(IsPast(date, baseDate) && IsFuture(date, baseDate))
    ensures date.time.Some? && date.time == baseDate.time ==> !IsPast(date, baseDate) && !IsFuture(date, baseDate)
    ensures IsValidDate(date) && IsValidDate(baseDate) ==>
      (IsPast(date, baseDate) <==> date.time.value < baseDate.time.value) &&
      (IsFuture(date, baseDate) <==> date.time.value > baseDate.time.value)
  {
  }

  /** Inclusive at both ends; false whenever the start is after the end. */
  lemma InRangeFacts(date: Date, startDate: Date, endDate: Date)
    ensures IsInRange(date, startDate, endDate) <==>
      IsValidDate(date) && IsValidDate(startDate) && IsValidDate(endDate) &&
      startDate.time.value <= date.time.value <= endDate.time.value
    ensures IsValidDate(startDate) && IsValidDate(endDate) ==>
      IsInRange(startDate, startDate, endDate) == (startDate.time.value <= endDate.time.value) &&
      IsInRange(endDate, startDate, endDate) == (startDate.time.value <= endDate.time.value)
    ensures IsValidDate(startDate) && IsValidDate(endDate) && startDate.time.value > endDate.time.value ==>
      !IsInRange(date, startDate, endDate)
  {
  }

  /** For a valid date whose day of the week is in 0..6, exactly one of weekend and weekday holds. */
  lemma WeekendXorWeekday(h: Host, date: Date)
    requires IsValidDate(date) && 0 <= h.weekDay(date.time.value) <= 6
    ensures IsWeekend(h, date) != IsWeekday(h, date)
  {
  }

  /** The Gregorian rule, stated with mathematical divisibility. */
  lemma {:induction false} LeapYearRule(year: int)
    ensures IsLeapYear(year) <==> (year % 4 == 0 && year % 100 != 0) || year % 400 == 0
    ensures year % 400 == 0 ==> IsLeapYear(year)
    ensures year % 100 == 0 && year % 400 != 0 ==> !IsLeapYear(year)
    ensures year % 4 != 0 ==> !IsLeapYear(year)
    ensures year % 4 == 0 && year % 100 != 0 ==> IsLeapYear(year)
  {
    DivisibleByJsRem(year, 4);
    DivisibleByJsRem(year, 100);
    DivisibleByJsRem(year, 400);
  }

  /** JavaScript's remainder is zero exactly when the mathematical one is. */
  lemma DivisibleByJsRem(a: int, k: int)
    requires k == 4 || k == 100 || k == 400
    ensures (JsRem(a, k) == 0) <==> (a % k == 0)
  {
    if a >= 0 {
    } else if k == 4 {
      assert JsRem(a, 4) == -((-a) % 4);
      assert (-a) % 4 == 0 <==> a % 4 == 0;
    } else if k == 100 {
      assert JsRem(a, 100) == -((-a) % 100);
      assert (-a) % 100 == 0 <==> a % 100 == 0;
    } else {
      assert JsRem(a, 400) == -((-a) % 400);
      assert (-a) % 400 == 0 <==> a % 400 == 0;
    }
  }

  lemma LeapYearExamples()
    ensures IsLeapYear(2000) && IsLeapYear(2024) && IsLeapYear(-4)
    ensures !IsLeapYear(1900) && !IsLeapYear(2023) && !IsLeapYear(-100)
  {
  }

  /**
   * An accepted ISO string is 19, 20, 23 or 24 characters long, with the separators
   * and digits of the pattern at fixed positions.
   */
  lemma IsoStringShape(h: Host, s: string)
    requires IsISOString(h, s)
    ensures |s| == 19 || |s| == 20 || |s| == 23 || |s| == 24
    ensures s[4] == '-' && s[7] == '-' && s[10] == 'T' && s[13] == ':' && s[16] == ':'
    ensures forall i :: 0 <= i < 19 && i != 4 && i != 7 && i != 10 && i != 13 && i != 16 ==> IsDigit(s[i])
    ensures |s| == 20 ==> s[19] == 'Z'
    ensures |s| >= 23 ==> s[19] == '.' && IsDigit(s[20]) && IsDigit(s[21]) && IsDigit(s[22])
    ensures |s| == 24 ==> s[23] == 'Z'
    ensures IsAsciiAlnum(s[|s| - 1])
  {
    assert s[..19][4] == s[4] && s[..19][10] == s[10];
    assert forall i :: 0 <= i < 19 ==> s[..19][i] == s[i];
    var t := s[19..];
    assert |s| > 19 ==> s[19] == t[0];
    if |t| >= 4 {
      assert s[20] == t[1] && s[21] == t[2] && s[22] == t[3];
    }
    if |t| == 5 {
      assert s[23] == t[4..][0];
    }
  }

  /** `isToday` is `isSameDay` against the base date whenever the base date is valid, and always on a well-formed host. */
  lemma TodayIsSameDay(h: Host, date: Date, baseDate: Date)
    ensures IsValidDate(baseDate) ==> IsToday(h, date, baseDate) == IsSameDay(h, date, baseDate)
    ensures WellFormed(h) ==> IsToday(h, date, baseDate) == IsSameDay(h, date, baseDate)
  {
    if WellFormed(h) && IsValidDate(date) {
      ValidDateText(h, date);
    }
  }

  /**
   * On a well-formed host, `isYesterday` and `isTomorrow` are `isSameDay` against a copy of
   * the base date shifted by one day; the base date itself is a value and is not changed.
   */
  lemma NeighbourDaysAreShiftedSameDay(h: Host, date: Date, baseDate: Date)
    requires WellFormed(h)
    ensures IsYesterday(h, date, baseDate) == IsSameDay(h, date, ShiftedCopy(h, baseDate, -1))
    ensures IsTomorrow(h, date, baseDate) == IsSameDay(h, date, ShiftedCopy(h, baseDate, 1))
  {
    if IsValidDate(date) {
      ValidDateText(h, date);
    }
  }

  /** Two dates in the same month are in the same year, and either relation is symmetric. */
  lemma SameMonthFacts(h: Host, date1: Date, date2: Date)
    ensures IsSameMonth(h, date1, date2) ==> IsSameYear(h, date1, date2)
    ensures IsSameMonth(h, date1, date2) == IsSameMonth(h, date2, date1)
    ensures IsSameYear(h, date1, date2) == IsSameYear(h, date2, date1)
  {
  }

  lemma IsoPatternExamples()
    ensures MatchesIsoPattern("2025-01-06T10:00:00Z")
    ensures MatchesIsoPattern("2025-01-06T10:00:00.123Z")
    ensures MatchesIsoPattern("2025-01-06T10:00:00.123")
    ensures !MatchesIsoPattern("2025-01-06")
    ensures !MatchesIsoPattern("2025-01-06 10:00:00")
    ensures !MatchesIsoPattern("2025-01-06T10:00:00+01:00")
  {
    assert "2025-01-06T10:00:00Z"[19..] == "Z";
    assert "2025-01-06T10:00:00.123Z"[19..][4..] == "Z";
    assert "2025-01-06 10:00:00"[..19][10] == ' ';
    assert "2025-01-06T10:00:00+01:00"[19..][0] == '+';
  }
}
