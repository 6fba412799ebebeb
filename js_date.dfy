/** JavaScript number arithmetic used by the date utilities. */
module JsNumber {
  import opened Wrappers

  function Abs(a: int): (r: int)
    ensures r >= 0 && (r == a || r == -a)
  {
    if a < 0 then -a else a
  }

  /** JavaScript `a % b` for a positive `b`: the remainder has the sign of the dividend. */
  function JsRem(a: int, b: int): (r: int)
    requires b > 0
    ensures a >= 0 ==> 0 <= r < b
    ensures a < 0 ==> -b < r <= 0
  {
    if a >= 0 then a % b else -((-a) % b)
  }

  /** `Math.trunc(a / b)` for a positive `b`: the quotient rounded toward zero. */
  function TruncDiv(a: int, b: int): (q: int)
    requires b > 0
    ensures a >= 0 ==> q >= 0
    ensures a < 0 ==> q <= 0
  {
    if a >= 0 then a / b else -((-a) / b)
  }

  /** JavaScript's `%` is the remainder of the quotient rounded toward zero. */
  lemma TruncDivRemainder(a: int, b: int)
    requires b > 0
    ensures b * TruncDiv(a, b) + JsRem(a, b) == a
  {
    if a < 0 {
      var n := -a;
      assert b * (n / b) + n % b == n;
      assert b * -(n / b) == -(b * (n / b));
    }
  }

  /** Subtraction of time values; NaN in, NaN out. */
  function Sub(a: Option<int>, b: Option<int>): Option<int> {
    if a.Some? && b.Some? then Some(a.value - b.value) else None
  }

  /** `a < b`; every comparison with NaN is false. */
  predicate Less(a: Option<int>, b: Option<int>) {
    a.Some? && b.Some? && a.value < b.value
  }
}

/**
 * The JavaScript `Date` as seen by the date utilities: a time value, and the host's
 * local-time calendar, which the model treats as given functions of the time value.
 */
module JsDate {
  import opened Wrappers

  /** A `Date`: milliseconds since the epoch, or `None` when the time value is NaN (an invalid date). */
  datatype Date = Date(time: Option<int>)

  /**
   * The host's local-time calendar, not interpreted by the model:
   * `dateString` is `toDateString()` of a valid time value, `weekDay` is `getDay()`,
   * `fullYear` is `getFullYear()`, `month` is `getMonth()`, `addDays(t, k)` is the time
   * value after `setDate(getDate() + k)` (NaN if out of range), and `parse` is
   * `new Date(text).getTime()`.
   */
  datatype Host = Host(
    dateString: int -> string,
    weekDay: int -> int,
    fullYear: int -> int,
    month: int -> int,
    addDays: (int, int) -> Option<int>,
    parse: string -> Option<int>)

  /** What `toDateString()` returns for an invalid date. */
  const InvalidDateText: string := "Invalid Date"

  /** `d.toDateString()` */
  function ToDateString(h: Host, d: Date): string {
    match d.time
    case None => InvalidDateText
    case Some(t) => h.dateString(t)
  }

  /** `const c = new Date(d); c.setDate(c.getDate() + k)`: a shifted copy; `d` itself is only read. */
  function ShiftedCopy(h: Host, d: Date, k: int): Date {
    match d.time
    case None => Date(None)
    case Some(t) => Date(h.addDays(t, k))
  }

  /** A host whose `toDateString()` of a valid date is never the invalid-date text. */
  ghost predicate WellFormed(h: Host) {
    forall t :: h.dateString(t) != InvalidDateText
  }

  /** On a well-formed host, a valid date never prints as the invalid-date text. */
  lemma ValidDateText(h: Host, d: Date)
    requires WellFormed(h) && d.time.Some?
    ensures ToDateString(h, d) != InvalidDateText
  {
    assert forall u :: h.dateString(u) != InvalidDateText;
  }
}
