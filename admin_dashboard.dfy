/**
 * The logic inside the admin dashboard (gui/admin_dashboard.py): the date
 * range chosen with the day/month/year boxes, the employee and MAC search,
 * the live summary line, the cells of the sessions and feedback tables and
 * the session timer.
 *
 * The session listing the filter starts from (what fetch_all_sessions_with_idle
 * returns) is a parameter; the widgets, colours and message boxes are not
 * modelled.
 */
module AdminDashboard {
  import opened Wrappers
  import opened Calendar
  import opened Text
  import opened Queries
  import opened IdleMonitoring
  import opened EmployeeDashboard

  // ---------------------------------------------------------------------------
  // The session filter

  /**
   * The three boxes: `None` for the "Day", "Month" and "Year" entries, else
   * the day, the month's position in the list (January is 1) and the year.
   */
  datatype DateChoice = DateChoice(day: Option<int>, month: Option<int>, year: Option<int>)

  /** No date filter, the dates from `start` to `end` (ordinals, both included), or a ValueError. */
  datatype DateFilter = AllDates | Between(start: int, end: int) | InvalidDate

  /** The start_date/end_date computation of filter_sessions_by_dropdowns. */
  function DateRange(c: DateChoice): (r: DateFilter)
    ensures r == AllDates <==> c.year.None?
    ensures r.Between? ==> 1 <= r.start <= r.end
  {
    if c.year.None? then AllDates
    else
      var y := c.year.value;
      if c.month.Some? then
        var m := c.month.value;
        if c.day.Some? then
          match MakeDate(y, m, c.day.value)
          case None => InvalidDate
          case Some(d) => Between(d, d)
        else
          match MakeDate(y, m, 1)
          case None => InvalidDate
          case Some(first) =>
            var next := if m == 12 then MakeDate(y + 1, 1, 1) else MakeDate(y, m + 1, 1);
            if next.None? then InvalidDate
            else
              match PreviousDay(next.value)
              case None => InvalidDate
              case Some(last) =>
                MonthEnd(y, m);
                Between(first, last)
      else
        match (MakeDate(y, 1, 1), MakeDate(y, 12, 31))
        case (Some(first), Some(last)) => Between(first, last)
        case _ => InvalidDate
  }

  /** The day before the first of the next month is the last day of this one. */
  lemma MonthEnd(y: int, m: int)
    requires ValidDate(y, m, 1)
    ensures m < 12 ==> Ordinal(y, m + 1, 1) - 1 == Ordinal(y, m, DaysInMonth(y, m))
    ensures m == 12 && y < MaxYear ==> Ordinal(y + 1, 1, 1) - 1 == Ordinal(y, m, DaysInMonth(y, m))
  {
    if m < 12 {
      MonthsAreContiguous(y, m);
    } else {
      DaysBeforeNextYear(y);
      DecemberEndsTheYear(y);
    }
  }

  /** Year, month and day: that one day, or a ValueError for an impossible date such as 31 April. */
  lemma SingleDay(y: int, m: int, d: int)
    ensures ValidDate(y, m, d) ==> DateRange(DateChoice(Some(d), Some(m), Some(y))) == Between(Ordinal(y, m, d), Ordinal(y, m, d))
    ensures !ValidDate(y, m, d) ==> DateRange(DateChoice(Some(d), Some(m), Some(y))) == InvalidDate
  {
  }

  /**
   * Year and month: from the 1st to the month's last day (December through
   * January 1st of the next year, less a day, which for 9999 is a ValueError).
   */
  lemma WholeMonth(y: int, m: int)
    requires MinYear <= y <= MaxYear && 1 <= m <= 12
    ensures m == 12 && y == MaxYear ==> DateRange(DateChoice(None, Some(m), Some(y))) == InvalidDate
    ensures !(m == 12 && y == MaxYear) ==>
      var r := DateRange(DateChoice(None, Some(m), Some(y)));
      r == Between(Ordinal(y, m, 1), Ordinal(y, m, DaysInMonth(y, m))) && r.end - r.start + 1 == DaysInMonth(y, m)
  {
    MonthEnd(y, m);
  }

  /** Year only: January 1st to December 31st, every day of the year. */
  lemma WholeYear(y: int)
    requires MinYear <= y <= MaxYear
    ensures var r := DateRange(DateChoice(None, None, Some(y)));
      r == Between(Ordinal(y, 1, 1), Ordinal(y, 12, 31)) && r.end - r.start + 1 == DaysInYear(y)
  {
    DecemberEndsTheYear(y);
  }

  /** The month and day boxes count only under a year. */
  lemma NoYearNoFilter(day: Option<int>, month: Option<int>)
    ensures DateRange(DateChoice(day, month, None)) == AllDates
  {
  }

  /** `text.strip().lower()`, how both search boxes are read. */
  function SearchKey(text: string): (r: string)
    ensures |r| <= |text|
    ensures r != [] ==> !IsSpace(r[0]) && !IsSpace(r[|r| - 1])
    ensures forall i :: 0 <= i < |r| ==> !('A' <= r[i] <= 'Z')
  {
    Lower(Strip(text))
  }

  /** Reading a search box twice reads what reading it once does. */
  lemma SearchKeyIdempotent(text: string)
    ensures SearchKey(SearchKey(text)) == SearchKey(text)
  {
    var k := SearchKey(text);
    assert StripStart(k) == k;
    assert StripEnd(k) == k;
    assert Lower(k) == k;
  }

  /**
   * `(not emp or emp in username.lower()) and (not mac or mac in mac_address.lower())`:
   * each non-empty search key must occur somewhere in the lower-cased field.
   */
  predicate RowMatches(row: SessionRow, emp: string, mac: string) {
    (emp == "" || Contains(Lower(row.username), emp)) && (mac == "" || Contains(Lower(row.mac), mac))
  }

  /** A row matches exactly when each non-empty search occurs at some index of its field. */
  lemma RowMatchesIffOccurs(row: SessionRow, emp: string, mac: string)
    ensures RowMatches(row, emp, mac) <==>
      (emp == "" || exists i: nat :: OccursAt(Lower(row.username), emp, i))
      && (mac == "" || exists i: nat :: OccursAt(Lower(row.mac), mac, i))
  {
    ContainsIffOccurs(Lower(row.username), emp);
    ContainsIffOccurs(Lower(row.mac), mac);
  }

  /** The rows that match both searches, in their order. */
  function Matching(rows: seq<SessionRow>, emp: string, mac: string): (r: seq<SessionRow>)
    ensures |r| <= |rows|
    ensures forall x :: x in r <==> x in rows && RowMatches(x, emp, mac)
    decreases |rows|
  {
    if rows == [] then []
    else
      var init := Matching(rows[..|rows| - 1], emp, mac);
      var x := rows[|rows| - 1];
      assert forall y :: y in rows <==> y == x || y in rows[..|rows| - 1];
      if RowMatches(x, emp, mac) then init + [x] else init
  }

  /** Filtering keeps the order: the matches of a concatenation are the concatenated matches. */
  lemma {:induction false} MatchingAppend(a: seq<SessionRow>, b: seq<SessionRow>, emp: string, mac: string)
    ensures Matching(a + b, emp, mac) == Matching(a, emp, mac) + Matching(b, emp, mac)
    decreases |b|
  {
    if b == [] {
      assert a + b == a;
    } else {
      var b' := b[..|b| - 1];
      assert (a + b)[..|a + b| - 1] == a + b' && (a + b)[|a + b| - 1] == b[|b| - 1];
      MatchingAppend(a, b', emp, mac);
    }
  }

  /** When every row matches (as every row does with both searches empty), nothing is dropped. */
  lemma {:induction false} MatchingEverything(rows: seq<SessionRow>, emp: string, mac: string)
    requires forall x :: x in rows ==> RowMatches(x, emp, mac)
    ensures Matching(rows, emp, mac) == rows
    decreases |rows|
  {
    if rows != [] {
      var init := rows[..|rows| - 1];
      assert forall x :: x in init ==> x in rows;
      MatchingEverything(init, emp, mac);
      assert rows[|rows| - 1] in rows;
      assert init + [rows[|rows| - 1]] == rows;
    }
  }

  /** The search part of filter_sessions_by_dropdowns, with the searches already stripped and lower-cased. */
  method TextFilter(sessions: seq<SessionRow>, emp: string, mac: string) returns (shown: seq<SessionRow>)
    ensures shown == Matching(sessions, emp, mac)
  {
    if emp == "" && mac == "" {
      MatchingEverything(sessions, emp, mac);
      return sessions;
    }
    shown := [];
    var i := 0;
    while i < |sessions|
      invariant 0 <= i <= |sessions|
      invariant shown == Matching(sessions[..i], emp, mac)
    {
      assert sessions[..i + 1][..i] == sessions[..i];
      var row := sessions[i];
      var employeeMatch := emp == "" || Contains(Lower(row.username), emp);
      var macMatch := mac == "" || Contains(Lower(row.mac), mac);
      if employeeMatch && macMatch {
        shown := shown + [row];
      }
      i := i + 1;
    }
    assert sessions[..|sessions|] == sessions;
  }

  /** The sessions the date boxes select from the full listing `all`. */
  function Dated(all: seq<SessionRow>, f: DateFilter): seq<SessionRow> {
    match f
    case Between(start, end) => InDateRange(all, start, end)
    case _ => all
  }

  /**
   * filter_sessions_by_dropdowns: the listing narrowed to the chosen dates and
   * to the rows matching both searches; for an impossible date, a warning and
   * the whole listing (load_sessions).
   */
  method FilterSessionsByDropdowns(all: seq<SessionRow>, c: DateChoice, employeeText: string, macText: string)
    returns (shown: seq<SessionRow>, warned: bool)
    ensures warned <==> DateRange(c) == InvalidDate
    ensures warned ==> shown == all
    ensures !warned ==> shown == Matching(Dated(all, DateRange(c)), SearchKey(employeeText), SearchKey(macText))
    ensures !warned ==> forall x :: x in shown <==>
      (x in all && RowMatches(x, SearchKey(employeeText), SearchKey(macText))
       && (DateRange(c).Between? ==> DateRange(c).start <= x.sessionDate <= DateRange(c).end))
  {
    var emp := SearchKey(employeeText);
    var mac := SearchKey(macText);
    var range := DateRange(c);
    if range == InvalidDate {
      return all, true;
    }
    var sessions := all;
    if range.Between? {
      sessions := FilterByDate(all, range.start, range.end);
    }
    shown := TextFilter(sessions, emp, mac);
    warned := false;
  }

  // ---------------------------------------------------------------------------
  // The live summary of update_live_status

  /** `[s['username'] for s in sessions if s['is_idle']]`. */
  function IdleUsers(sessions: seq<SessionStatus>): (r: seq<string>)
    ensures |r| <= |sessions|
    ensures forall n :: n in r <==> exists s :: s in sessions && s.isIdle && s.username == n
    decreases |sessions|
  {
    if sessions == [] then []
    else IdleUsers(sessions[..|sessions| - 1]) + (if sessions[|sessions| - 1].isIdle then [sessions[|sessions| - 1].username] else [])
  }

  /** `sum(1 for s in sessions if s['is_idle'])`. */
  function IdleCount(sessions: seq<SessionStatus>): (r: nat)
    ensures r <= |sessions|
    decreases |sessions|
  {
    if sessions == [] then 0
    else IdleCount(sessions[..|sessions| - 1]) + (if sessions[|sessions| - 1].isIdle then 1 else 0)
  }

  /** The idle count is the number of idle users the summary can name. */
  lemma {:induction false} IdleCountIsIdleUsers(sessions: seq<SessionStatus>)
    ensures IdleCount(sessions) == |IdleUsers(sessions)|
    decreases |sessions|
  {
    if sessions != [] {
      IdleCountIsIdleUsers(sessions[..|sessions| - 1]);
    }
  }

  /** The numbers and names the summary line shows. */
  datatype LiveSummary = LiveSummary(total: nat, working: int, idle: nat, named: seq<string>, more: bool)

  function Summarize(sessions: seq<SessionStatus>): (s: LiveSummary)
    ensures s.total == |sessions| && s.idle == |IdleUsers(sessions)|
    ensures s.working == s.total - s.idle && s.working >= 0
    ensures |s.named| == if s.idle < 3 then s.idle else 3
    ensures s.named == IdleUsers(sessions)[..|s.named|]
    ensures s.more <==> s.idle > 3
  {
    IdleCountIsIdleUsers(sessions);
    var idleCount := IdleCount(sessions);
    var names := IdleUsers(sessions);
    LiveSummary(|sessions|, |sessions| - idleCount, idleCount, if |names| <= 3 then names else names[..3], |names| > 3)
  }

  /** The summary line's text. */
  function SummaryText(s: LiveSummary): string {
    "\U{1F4CA} Active Sessions: " + NatToString(s.total) + " | Working: " + IntToString(s.working)
    + " | Idle: " + NatToString(s.idle)
    + if s.idle > 0 then " | Idle Users: " + Join(", ", s.named) + (if s.more then "..." else "") else ""
  }

  // ---------------------------------------------------------------------------
  // The cells of the sessions table (populate_sessions_table)

  /** The clock-out cell: the time, or the open session's status. */
  datatype ClockOutCell = ClosedAt(time: Timestamp) | StillActive | ActiveAndIdle

  datatype TableRow = TableRow(
    mac: string, username: string, clockIn: Timestamp, clockOut: ClockOutCell, sessionDate: int,
    workMinutes: int, sleepMinutes: int, idleMinutes: int)

  /** `x if x is not None else 0`. */
  function OrZero(x: Option<int>): (r: int)
    ensures x.Some? ==> r == x.value
    ensures x.None? ==> r == 0
  {
    if x.Some? then x.value else 0
  }

  /** The session and account ids are both there and non-zero (Python truthiness). */
  predicate HasLiveKey(row: SessionRow) {
    row.sessionId.Some? && row.sessionId.value != 0 && row.accountId.Some? && row.accountId.value != 0
  }

  /** The cells of one row, asking the idle registry about an open session. */
  function SessionCells(row: SessionRow, registry: MonitorRegistry, now: Timestamp, sample: int): (r: TableRow)
    reads registry, registry.monitors.Values
    ensures r.workMinutes == OrZero(row.workMinutes) && r.sleepMinutes == OrZero(row.sleepMinutes)
      && r.idleMinutes == OrZero(row.idleMinutes)
    ensures row.clockOut.Some? ==> r.clockOut == ClosedAt(row.clockOut.value)
    ensures registry.Valid() && row.clockOut.None? ==>
      (r.clockOut == ActiveAndIdle <==>
         (HasLiveKey(row) && MonitorKey(row.accountId.value, row.sessionId.value) in registry.monitors
          && registry.monitors[MonitorKey(row.accountId.value, row.sessionId.value)].isIdle))
    ensures r.clockOut == StillActive || r.clockOut == ActiveAndIdle <==> row.clockOut.None?
  {
    var cell :=
      if row.clockOut.Some? then ClosedAt(row.clockOut.value)
      else if HasLiveKey(row) && registry.GetIdleStatus(row.accountId.value, row.sessionId.value, now, sample).isIdle
      then ActiveAndIdle
      else StillActive;
    TableRow(row.mac, row.username, row.clockIn, cell, row.sessionDate,
             OrZero(row.workMinutes), OrZero(row.sleepMinutes), OrZero(row.idleMinutes))
  }

  method PopulateSessionsTable(rows: seq<SessionRow>, registry: MonitorRegistry, now: Timestamp, sample: int)
    returns (table: seq<TableRow>)
    ensures |table| == |rows|
    ensures forall i :: 0 <= i < |rows| ==> table[i] == SessionCells(rows[i], registry, now, sample)
  {
    table := [];
    for i := 0 to |rows|
      invariant |table| == i
      invariant forall k :: 0 <= k < i ==> table[k] == SessionCells(rows[k], registry, now, sample)
    {
      table := table + [SessionCells(rows[i], registry, now, sample)];
    }
  }

  // ---------------------------------------------------------------------------
  // The cells of the feedback table (populate_feedback_table)

  const CommentPreviewLength: nat := 50

  /** `username if username else "Anonymous"`. */
  function DisplayName(username: Option<string>): (r: string)
    ensures r != ""
    ensures username.Some? && username.value != "" ==> r == username.value
    ensures username.None? || username.value == "" ==> r == "Anonymous"
  {
    if username.Some? && username.value != "" then username.value else "Anonymous"
  }

  /** A comment longer than 50 characters is cut to its first 50 and "..." is appended. */
  function CommentPreview(comment: Option<string>): (r: string)
    ensures |r| <= CommentPreviewLength + 3
    ensures comment.None? ==> r == ""
    ensures comment.Some? && |comment.value| <= CommentPreviewLength ==> r == comment.value
    ensures comment.Some? && |comment.value| > CommentPreviewLength ==>
      |r| == CommentPreviewLength + 3 && IsPrefix(r[..CommentPreviewLength], comment.value)
      && r[CommentPreviewLength..] == "..."
  {
    if comment.None? || comment.value == "" then ""
    else if |comment.value| > CommentPreviewLength then comment.value[..CommentPreviewLength] + "..."
    else comment.value
  }

  // ---------------------------------------------------------------------------
  // The session timer (update_timer)

  /**
   * update_timer as written: it splits `elapsed.seconds`, the seconds part of
   * the timedelta, which leaves out whole days; for a negative elapsed time
   * it is the seconds left after rounding down to whole days.
   */
  function AdminTimerAsWritten(elapsed: int): (r: string)
    ensures ReadTimer(r) == Some(TimedeltaSeconds(elapsed))
  {
    TimerTextRoundTrip(TimedeltaSeconds(elapsed));
    TimerText(TimedeltaSeconds(elapsed))
  }

  /** update_timer as the employee dashboard's timer does it: the total seconds. */
  function AdminTimer(elapsed: int): (r: string)
    ensures ReadTimer(r) == Some(elapsed)
  {
    TimerTextRoundTrip(elapsed);
    TimerText(elapsed)
  }

  /** A session open for 25 hours shows as 01:00:00. */
  lemma AdminTimerWrapsAfterADay()
    ensures ReadTimer(AdminTimerAsWritten(90000)) == Some(3600)
    ensures AdminTimerAsWritten(90000) != AdminTimer(90000)
  {
  }

  /**
   * The two timers agree exactly during the first day; afterwards the one as
   * written always shows too little, and before the clock-in too much.
   */
  lemma AdminTimerAgreesForADay(elapsed: int)
    ensures 0 <= elapsed < SecondsPerDay ==> AdminTimerAsWritten(elapsed) == AdminTimer(elapsed)
    ensures elapsed >= SecondsPerDay ==>
      ReadTimer(AdminTimerAsWritten(elapsed)) == Some(elapsed % SecondsPerDay) && elapsed % SecondsPerDay < elapsed
    ensures elapsed < 0 ==>
      ReadTimer(AdminTimerAsWritten(elapsed)) == Some(elapsed % SecondsPerDay) && elapsed % SecondsPerDay > elapsed
  {
  }

  /** The padded fields the timers show one second before the clock-in. */
  lemma PaddedFieldsBeforeClockIn()
    ensures ZeroPad2(59) == "59" && ZeroPad2(23) == "23" && ZeroPad2(-1) == "-1"
  {
    assert NatToString(59) == NatToString(5) + [DigitChar(9)];
    assert NatToString(23) == NatToString(2) + [DigitChar(3)];
  }

  /** One second before the clock-in: the admin timer shows 23:59:59, the total-seconds one -1:59:59. */
  lemma TimersBeforeClockIn()
    ensures AdminTimerAsWritten(-1) == "23:59:59"
    ensures AdminTimer(-1) == "-1:59:59"
  {
    assert TimedeltaSeconds(-1) == 86399;
    assert AdminTimerAsWritten(-1) == TimerText(86399);
    assert AdminTimer(-1) == TimerText(-1);
    TimerTextsBeforeClockIn();
  }

  /** The two timer texts for one second before a day boundary. */
  lemma TimerTextsBeforeClockIn()
    ensures TimerText(86399) == "23:59:59" && TimerText(-1) == "-1:59:59"
  {
    PaddedFieldsBeforeClockIn();
    TimerTextOf(86399, 23, 59, 59);
    TimerTextOf(-1, -1, 59, 59);
    assert ZeroPad2(23) + ":" + ZeroPad2(59) + ":" + ZeroPad2(59) == "23" + ":" + "59" + ":" + "59";
    assert ZeroPad2(-1) + ":" + ZeroPad2(59) + ":" + ZeroPad2(59) == "-1" + ":" + "59" + ":" + "59";
    LiteralTimerTexts();
  }

  lemma LiteralTimerTexts()
    ensures "23" + ":" + "59" + ":" + "59" == "23:59:59"
    ensures "-1" + ":" + "59" + ":" + "59" == "-1:59:59"
  {
  }

  /** The timer text of a total whose hours, minutes and seconds are known. */
  lemma TimerTextOf(total: int, h: int, m: int, sec: int)
    requires 0 <= m < 60 && 0 <= sec < 60 && 3600 * h + 60 * m + sec == total
    ensures TimerText(total) == ZeroPad2(h) + ":" + ZeroPad2(m) + ":" + ZeroPad2(sec)
  {
    HmsUnique(total, h, m, sec);
  }
}
