/** Instants, civil dates and "HH:MM" clock times, as the booking engine
    builds them with JavaScript `Date` objects.

    An instant is an integer number of milliseconds since the Unix epoch.
    A calendar date is its day number (days since 1970-01-01). The engine
    writes every civil time with the fixed offset "+11:00"; `getDay()`
    instead runs in the server's own zone, whose offset is part of `Env`. */
module Time {
  import opened Common

  /** `Date.prototype.getTime()`: milliseconds since 1970-01-01T00:00:00Z. */
  type Instant = int

  const SECOND_MS: int := 1000
  const MINUTE_MS: int := 60000
  const HOUR_MS: int := 3600000
  const DAY_MS: int := 86400000
  /** The "+11:00" written into every civil timestamp the engine builds. */
  const CIVIL_OFFSET_MS: int := 11 * HOUR_MS

  /** The ambient state a request sees: `new Date()` and the offset of the
      server's local zone, used by `getDay()` and `setDate()`. */
  datatype Env = Env(now: Instant, serverOffsetMs: int)

  // ---------------------------------------------------------------------------
  // "HH:MM" clock times
  // ---------------------------------------------------------------------------

  /** `Number(part)` for a string of digits ("" gives 0); None stands for NaN. */
  function NumberOf(s: string): (r: Option<int>)
    ensures r.Some? ==> r.value >= 0
  {
    if AllDigits(s) then Some(DigitsValue(s)) else None
  }

  /** The first two fields of `t.split(':')`; None when there is no second field. */
  function ClockFields(t: string): Option<(string, string)>
  {
    if ':' !in t then None
    else
      var i := IndexOf(t, ':');
      var rest := t[i + 1..];
      Some((t[..i], if ':' in rest then rest[..IndexOf(rest, ':')] else rest))
  }

  /** `const [h, m] = t.split(':').map(Number)` followed by `h * 60 + m`:
      minutes since midnight, or None where JavaScript computes NaN. */
  function ParseClock(t: string): (r: Option<int>)
    ensures r.Some? ==> r.value >= 0
  {
    match ClockFields(t)
    case None => None
    case Some((h, m)) =>
      match (NumberOf(h), NumberOf(m))
      case (Some(hv), Some(mv)) => Some(hv * 60 + mv)
      case _ => None
  }

  /** The "HH:MM" text the slot generator writes for minute `m` of the day:
      `String(Math.floor(m / 60)).padStart(2, '0') + ':' + String(m % 60).padStart(2, '0')`. */
  function FormatClock(m: nat): string
  {
    PadStart2(NatToString(m / 60)) + ":" + PadStart2(NatToString(m % 60))
  }

  lemma TwoDigitValue(s: string)
    requires |s| == 2 && AllDigits(s)
    ensures DigitsValue(s) == DigitValue(s[0]) * 10 + DigitValue(s[1])
  {
    assert s[..1][..0] == [] && s[..1][0] == s[0];
    assert DigitsValue(s[..1]) == DigitValue(s[0]);
  }

  /** Text of the form "HH:MM" in digits parses to its hours times 60 plus its minutes. */
  lemma ParseDigitClock(s: string)
    requires |s| == 5 && s[2] == ':' && AllDigits(s[..2]) && AllDigits(s[3..])
    ensures ParseClock(s) == Some(DigitsValue(s[..2]) * 60 + DigitsValue(s[3..]))
  {
    assert s[0] != ':' && s[1] != ':';
    assert IndexOf(s, ':') == 2;
    var rest := s[3..];
    assert ':' !in rest;
    assert ClockFields(s) == Some((s[..2], rest));
  }

  /** Rendering a minute of the day and parsing it back gives the same minute. */
  lemma ClockRoundTrip(m: nat)
    requires m < 1440
    ensures ParseClock(FormatClock(m)) == Some(m)
  {
    var h, mm := m / 60, m % 60;
    TwoDigits(h);
    TwoDigits(mm);
    var s := FormatClock(m);
    assert s == [DigitChar(h / 10), DigitChar(h % 10), ':', DigitChar(mm / 10), DigitChar(mm % 10)];
    ParseDigitClock(s);
    TwoDigitValue(s[..2]);
    TwoDigitValue(s[3..]);
  }

  // ---------------------------------------------------------------------------
  // "YYYY-MM-DD" calendar dates
  // ---------------------------------------------------------------------------

  /** `/^\d{4}-\d{2}-\d{2}$/.test(s)`. */
  predicate IsDateKey(s: string)
  {
    |s| == 10 && AllDigits(s[..4]) && s[4] == '-' && AllDigits(s[5..7]) && s[7] == '-' && AllDigits(s[8..])
  }

  function KeyYear(s: string): nat requires IsDateKey(s) { DigitsValue(s[..4]) }
  function KeyMonth(s: string): nat requires IsDateKey(s) { DigitsValue(s[5..7]) }
  function KeyDay(s: string): nat requires IsDateKey(s) { DigitsValue(s[8..]) }

  predicate IsLeapYear(y: int) { y % 4 == 0 && (y % 100 != 0 || y % 400 == 0) }

  function DaysInMonth(y: int, m: int): int
    requires 1 <= m <= 12
  {
    if m == 2 then (if IsLeapYear(y) then 29 else 28)
    else if m == 4 || m == 6 || m == 9 || m == 11 then 30
    else 31
  }

  /** A string that passes the pattern and that the engine's date parser
      turns into a valid date: a month from 1 to 12 and a day from 1 to 31.
      A day past the end of its month is not refused; it runs on into the
      next month (see `PastMonthEndRollsOver`). */
  predicate ParsesAsDate(s: string)
  {
    IsDateKey(s) && 1 <= KeyMonth(s) <= 12 && 1 <= KeyDay(s) <= 31
  }

  /** The day number of 1 March of year `y`; the year is counted from March
      so that the leap day falls at its end (the era/day-of-era method for
      the proleptic Gregorian calendar, eras of 400 years). */
  function MarchFirst(y: int): int
  {
    var era := y / 400;
    var yoe := y - era * 400;
    era * 146097 + yoe * 365 + yoe / 4 - yoe / 100 - 719468
  }

  /** Days from 1 March to day `d` of month `m` of the March-based year. */
  function DayOfMarchYear(m: int, d: int): int
    requires 1 <= m <= 12
  {
    var offset :=
      match m
      case 3 => 0    case 4 => 31   case 5 => 61   case 6 => 92
      case 7 => 122  case 8 => 153  case 9 => 184  case 10 => 214
      case 11 => 245 case 12 => 275 case 1 => 306  case _ => 337;
    offset + d - 1
  }

  /** The day number of a civil date (days since 1970-01-01). */
  function DaysFromCivil(y: int, m: int, d: int): int
    requires 1 <= m <= 12
  {
    MarchFirst(if m <= 2 then y - 1 else y) + DayOfMarchYear(m, d)
  }

  /** The day number `new Date(s)` stands for. */
  function DayNumber(s: string): int
    requires ParsesAsDate(s)
  {
    DaysFromCivil(KeyYear(s), KeyMonth(s), KeyDay(s))
  }

  lemma EpochIsDayZero()
    ensures DaysFromCivil(1970, 1, 1) == 0
  {}

  /** Within one era the leap rule depends only on the year of the era. */
  lemma LeapWithinEra(era: int, x: int)
    requires 0 <= x < 400
    ensures IsLeapYear(400 * era + x) == (x % 4 == 0 && (x % 100 != 0 || x == 0))
  {
    var y := 400 * era + x;
    DivUnique(y, 4, 100 * era + x / 4, x % 4);
    DivUnique(y, 100, 4 * era + x / 100, x % 100);
    DivUnique(y, 400, era, x);
  }

  /** A March-based year has 337 days before February and then February. */
  lemma MarchYearLength(y: int)
    ensures MarchFirst(y) == MarchFirst(y - 1) + 337 + DaysInMonth(y, 2)
  {
    var era := (y - 1) / 400;
    var yoe := (y - 1) - era * 400;
    assert 0 <= yoe < 400;
    if yoe == 399 {
      assert y == 400 * (era + 1);
      assert y / 400 == era + 1;
      LeapWithinEra(era + 1, 0);
    } else {
      var x := yoe + 1;
      assert y == 400 * era + x;
      assert y / 400 == era;
      LeapWithinEra(era, x);
      assert x / 4 == yoe / 4 + (if x % 4 == 0 then 1 else 0);
      assert x / 100 == yoe / 100 + (if x % 100 == 0 then 1 else 0);
    }
  }

  /** 1 March follows the last day of February, whether or not the year is leap. */
  lemma MarchFollowsFebruary(y: int)
    ensures DaysFromCivil(y, 3, 1) == DaysFromCivil(y, 2, DaysInMonth(y, 2)) + 1
  {
    MarchYearLength(y);
  }

  /** Within the March-based year the month offsets step by the month lengths. */
  lemma MonthOffsetStep(y: int, m: int)
    requires 1 <= m <= 11 && m != 2
    ensures DayOfMarchYear(m + 1, 1) == DayOfMarchYear(m, DaysInMonth(y, m)) + 1
  {}

  /** The day numbering agrees with the calendar's month lengths: the first
      day of a month follows the last day of the month before. */
  lemma NextMonthFollows(y: int, m: int)
    requires 1 <= m <= 11
    ensures DaysFromCivil(y, m + 1, 1) == DaysFromCivil(y, m, DaysInMonth(y, m)) + 1
  {
    if m == 2 {
      MarchFollowsFebruary(y);
    } else {
      MonthOffsetStep(y, m);
    }
  }

  /** A day past the end of its month names the day that many days into the
      next month: 30 February 2026 is 2 March. */
  lemma PastMonthEndRollsOver(y: int, m: int, d: int)
    requires 1 <= m <= 11 && DaysInMonth(y, m) < d <= 31
    ensures DaysFromCivil(y, m, d) == DaysFromCivil(y, m + 1, d - DaysInMonth(y, m))
  {
    NextMonthFollows(y, m);
  }

  lemma NextYearFollows(y: int)
    ensures DaysFromCivil(y + 1, 1, 1) == DaysFromCivil(y, 12, 31) + 1
  {}

  // ---------------------------------------------------------------------------
  // Instants of civil days
  // ---------------------------------------------------------------------------

  /** `new Date(`${date}T${HH}:${MM}:00+11:00`)` for minute `minute` of day `day`. */
  function CivilMinute(day: int, minute: int): Instant
  {
    day * DAY_MS + minute * MINUTE_MS - CIVIL_OFFSET_MS
  }

  /** `new Date(`${date}T00:00:00+11:00`)`. */
  function DayStart(day: int): Instant { CivilMinute(day, 0) }

  /** `new Date(`${date}T23:59:59+11:00`)`. */
  function DayEnd(day: int): Instant { DayStart(day) + DAY_MS - SECOND_MS }

  /** The +11:00 civil day an instant falls in. */
  function CivilDayOf(t: Instant): (d: int)
    ensures DayStart(d) <= t < DayStart(d) + DAY_MS
  {
    (t + CIVIL_OFFSET_MS) / DAY_MS
  }

  /** `t.toISOString().split('T')[0]`, as a day number: the UTC date of `t`. */
  function UtcDay(t: Instant): (d: int)
    ensures d * DAY_MS <= t < d * DAY_MS + DAY_MS
  {
    t / DAY_MS
  }

  /** `new Date("YYYY-MM-DD")`: midnight UTC of that date. */
  function UtcMidnight(day: int): Instant { day * DAY_MS }

  /** `t.getDay()` in a zone `offsetMs` ahead of UTC: 0 is Sunday, and
      1970-01-01 was a Thursday. */
  function Weekday(t: Instant, offsetMs: int): (w: int)
    ensures 0 <= w < 7
  {
    ((t + offsetMs) / DAY_MS + 4) % 7
  }

  /** On a server whose zone is +11:00, the weekday the engine looks up for a
      date is that date's own weekday. */
  lemma WeekdayOnCivilServer(day: int)
    ensures Weekday(DayStart(day), CIVIL_OFFSET_MS) == (day + 4) % 7
  {}

  /** On a server that runs in UTC, `${date}T00:00:00+11:00` is still the
      previous UTC day, so the engine looks up the previous day's weekday. */
  lemma WeekdayOnUtcServer(day: int)
    ensures Weekday(DayStart(day), 0) == (day + 3) % 7
  {
    assert (DayStart(day) + 0) / DAY_MS == day - 1;
  }

  /** The UTC date of an instant of civil day `day` is `day` from 11:00
      civil time on, and the day before until then. */
  lemma UtcDayOfCivilMinute(day: int, minute: int)
    requires 0 <= minute < 1440
    ensures UtcDay(CivilMinute(day, minute)) == if minute < 660 then day - 1 else day
  {}
}
