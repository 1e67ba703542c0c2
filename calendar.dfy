/**
 * The parts of Python's `datetime` that the accounting code relies on.
 *
 * A timestamp is a whole number of seconds since local midnight of 1970-01-01
 * (the sub-second part of a `datetime` is not modelled). A calendar date is its
 * proleptic Gregorian ordinal, the number `date.toordinal()` returns, so that
 * comparing dates is comparing integers and `date - timedelta(days=1)` is `- 1`.
 */
module Calendar {
  import opened Wrappers

  type Timestamp = nat

  const SecondsPerDay: nat := 86400
  const MinYear: int := 1
  const MaxYear: int := 9999
  /** The ordinal of 1970-01-01, the day a timestamp of 0 falls on. */
  const EpochOrdinal: int := 719163

  /** `int(seconds / 60)` in Python: whole minutes, rounded toward zero, not down. */
  function WholeMinutes(seconds: int): (m: int)
    ensures seconds >= 0 ==> 0 <= 60 * m <= seconds < 60 * m + 60
    ensures seconds < 0 ==> m <= 0 && 60 * m - 60 < seconds <= 60 * m
  {
    if seconds >= 0 then seconds / 60 else -((-seconds) / 60)
  }

  /** `timedelta(seconds=elapsed).seconds`: the seconds left over after whole days. */
  function TimedeltaSeconds(elapsed: int): (s: int)
    ensures 0 <= s < SecondsPerDay && (elapsed - s) % SecondsPerDay == 0
    ensures 0 <= elapsed < SecondsPerDay ==> s == elapsed
  {
    elapsed % SecondsPerDay
  }

  /**
   * `minutes, seconds = divmod(total, 60); hours, minutes = divmod(minutes, 60)`.
   * Python's divmod rounds down, as Dafny's `/` and `%` do for a positive divisor.
   */
  function Hms(total: int): (r: (int, int, int))
    ensures 0 <= r.1 < 60 && 0 <= r.2 < 60 && 3600 * r.0 + 60 * r.1 + r.2 == total
    ensures total >= 0 ==> r.0 >= 0
  {
    var minutes, seconds := total / 60, total % 60;
    (minutes / 60, minutes % 60, seconds)
  }

  /** The decomposition `Hms` gives is the only one with minutes and seconds in [0, 60). */
  lemma HmsUnique(total: int, h: int, m: int, sec: int)
    requires 0 <= m < 60 && 0 <= sec < 60 && 3600 * h + 60 * m + sec == total
    ensures Hms(total) == (h, m, sec)
  {
    assert total == 60 * (60 * h + m) + sec;
    assert total / 60 == 60 * h + m && total % 60 == sec;
  }

  predicate IsLeap(year: int) {
    year % 4 == 0 && (year % 100 != 0 || year % 400 == 0)
  }

  function DaysInYear(year: int): int {
    if IsLeap(year) then 366 else 365
  }

  function DaysInMonth(year: int, month: int): int
    requires 1 <= month <= 12
  {
    if month == 2 then (if IsLeap(year) then 29 else 28)
    else if month == 4 || month == 6 || month == 9 || month == 11 then 30
    else 31
  }

  /** Days in the years before `year`, counted from 0001-01-01. */
  function DaysBeforeYear(year: int): int
    requires year >= 1
  {
    var y := year - 1;
    y * 365 + y / 4 - y / 100 + y / 400
  }

  /** Days in the months of `year` before `month`. */
  function DaysBeforeMonth(year: int, month: int): int
    requires 1 <= month <= 12
  {
    var table := [0, 31, 59, 90, 120, 151, 181, 212, 243, 273, 304, 334];
    table[month - 1] + (if month > 2 && IsLeap(year) then 1 else 0)
  }

  predicate ValidDate(year: int, month: int, day: int) {
    MinYear <= year <= MaxYear && 1 <= month <= 12 && 1 <= day <= DaysInMonth(year, month)
  }

  function Ordinal(year: int, month: int, day: int): int
    requires ValidDate(year, month, day)
  {
    DaysBeforeYear(year) + DaysBeforeMonth(year, month) + day
  }

  /** `date(year, month, day)`: None where Python raises ValueError. */
  function MakeDate(year: int, month: int, day: int): (d: Option<int>)
    ensures d.Some? <==> ValidDate(year, month, day)
    ensures d.Some? ==> d.value >= 1
  {
    if ValidDate(year, month, day) then Some(Ordinal(year, month, day)) else None
  }

  /** `d - timedelta(days=1)`: None where Python raises OverflowError. */
  function PreviousDay(d: int): (p: Option<int>)
    ensures p.Some? <==> d > 1
    ensures p.Some? ==> p.value + 1 == d
  {
    if d > 1 then Some(d - 1) else None
  }

  /** `t.date()` for a timestamp. */
  function DateOf(t: Timestamp): (d: int)
    ensures (d - EpochOrdinal) * SecondsPerDay <= t < (d - EpochOrdinal + 1) * SecondsPerDay
  {
    EpochOrdinal + t / SecondsPerDay
  }

  lemma EpochIsJanuaryFirst1970()
    ensures ValidDate(1970, 1, 1) && Ordinal(1970, 1, 1) == EpochOrdinal
  {
  }

  lemma DateOfMonotone(t1: Timestamp, t2: Timestamp)
    requires t1 <= t2
    ensures DateOf(t1) <= DateOf(t2)
  {
  }

  lemma NextQuarter(y: nat)
    ensures (y + 1) / 4 == y / 4 + (if (y + 1) % 4 == 0 then 1 else 0)
  {
    var q, r := y / 4, y % 4;
    assert y == 4 * q + r && 0 <= r < 4;
    if r == 3 {
      assert y + 1 == 4 * (q + 1) + 0;
    } else {
      assert y + 1 == 4 * q + (r + 1);
    }
  }

  lemma NextCentury(y: nat)
    ensures (y + 1) / 100 == y / 100 + (if (y + 1) % 100 == 0 then 1 else 0)
  {
    var q, r := y / 100, y % 100;
    assert y == 100 * q + r && 0 <= r < 100;
    if r == 99 {
      assert y + 1 == 100 * (q + 1) + 0;
    } else {
      assert y + 1 == 100 * q + (r + 1);
    }
  }

  lemma NextQuadricentury(y: nat)
    ensures (y + 1) / 400 == y / 400 + (if (y + 1) % 400 == 0 then 1 else 0)
  {
    var q, r := y / 400, y % 400;
    assert y == 400 * q + r && 0 <= r < 400;
    if r == 399 {
      assert y + 1 == 400 * (q + 1) + 0;
    } else {
      assert y + 1 == 400 * q + (r + 1);
    }
  }

  /** The ordinal of the next year's January 1st is this year's length further on. */
  lemma DaysBeforeNextYear(year: int)
    requires year >= 1
    ensures DaysBeforeYear(year + 1) == DaysBeforeYear(year) + DaysInYear(year)
  {
    var y := year - 1;
    NextQuarter(y);
    NextCentury(y);
    NextQuadricentury(y);
  }

  /** The last day of a month, then one day later, is the first of the next month. */
  lemma MonthsAreContiguous(year: int, month: int)
    requires 1 <= month < 12
    ensures DaysBeforeMonth(year, month + 1) == DaysBeforeMonth(year, month) + DaysInMonth(year, month)
  {
  }

  lemma DecemberEndsTheYear(year: int)
    ensures DaysBeforeMonth(year, 12) + DaysInMonth(year, 12) == DaysInYear(year)
  {
  }
}
