# Sleep-Tracker: the session time accounting, modelled in Dafny

Sleep-Tracker is a desktop time tracker. When employees and admins log in
they are clocked in: a row in the `sessions` table. While the session runs:

- sleep/resume signals and idle_start/idle_end transitions from an idle
  detector are logged in `sleep_events`;
- on logout the session is clocked out, storing
  `work = max(0, whole minutes on the clock − sleep minutes − idle minutes)`.

The admin window shows the live sessions, the full session listing (with
date and text filters) and the feedback table. The employee window shows
its own work, sleep and idle figures and a session timer.

This project models that accounting core and proves its properties. It has
one module per concern:

- `Wrappers` (wrappers.dfy): `Option` / `Result`.
- `Calendar` (calendar.dfy): timestamps as whole seconds, Python's `int(x / 60)`, `timedelta.seconds`, `divmod`, proleptic Gregorian date ordinals and `date(y, m, d)` with its `ValueError`.
- `Text` (text.dfy): the ASCII string operations used: `lower`, `upper`, `strip`, `in`, `str(n)`, `:02d`.
- `Sorting` (sorting.dfy): `ORDER BY`: a sort by an integer key, with permutation, sortedness and uniqueness under distinct keys.
- `EventFold` (event_fold.dfy): the pairing loop of `calculate_sleep_minutes_for_session` / `calculate_idle_minutes_simple`, proved against an independent definition of which rows pair up.
- `Queries` (session_store.dfy): the tables as a `SessionStore` class and every query and update of `database/queries.py` that the accounting uses.
- `FeedbackQuery` (feedback_query.dfy): the SQL text and parameter list that `fetch_filtered_feedback` grows step by step.
- `IdleMonitoring` (idle_monitor.dfy): the `IdleMonitor` state machine and the `active_idle_monitors` registry.
- `MacAddress` (mac_address.dfy): `format_mac_address` and the integer-to-MAC branch of `get_mac_address`.
- `AdminDashboard` (admin_dashboard.dfy): the date-range derivation, the name/MAC filter, the live summary, the table cells and the admin timer.
- `EmployeeDashboard` (employee_dashboard.dfy): `format_minutes`, the idle label text, the live work figure and the session timer.
- `DashboardSession` (dashboard_session.dfy): the login/logout policy both windows share: reuse the open session or clock in, start idle tracking, show the feedback dialog once, stop idle monitoring before ending the session.

## Modelling choices

- **Time.** A timestamp is a whole number of seconds. `datetime.now()` is a
  `now` parameter, and so is the sampled system idle time
  (`get_idle_duration()`).
  - `int(total_seconds / 60)` is `Calendar.WholeMinutes`, which truncates
    toward zero as Python's `int()` does, negative arguments included.
  - Durations are summed in whole seconds before that one truncation. The
    source sums float minutes per interval instead; the two agree in exact
    arithmetic, but float rounding can differ (see "## Left out").
- **The database.** It is four sequences held by `Queries.SessionStore`. The
  store's `connected` flag says whether `get_connection()` succeeds.
  - Where the source catches the exception, the query returns its fallback
    (`0`, `False`, `[]`).
  - Where the exception escapes, the operation returns
    `Failure(Unavailable)` and changes nothing.
- **Row order.** `ORDER BY t` is specified as *some* ordering of the selected
  rows by `t` (`Sorting.IsOrderingOf`), and `TOP 1 … ORDER BY t DESC` as
  *a* row with the greatest `t`. Equal timestamps are thus left in any
  order, as the database leaves them.
  - Ties can change the sleep total: `EventFold.TiesChangeTheResult`.
  - With distinct timestamps the result is unique:
    `Queries.SleepMinutesDetermined`.
- **The idle monitor's thread loop** is one `Poll(sample, now)` step.
  - Each monitor keeps a ghost log of the rows it has written.
  - The class invariant ties that log to the monitor's fields through the
    same fold that `calculate_idle_minutes_simple` runs, so the monitor
    and the query agree on the idle time.
- **Overlapping sleep signals.** One might expect a power signal and a lock
  signal to count the same sleep twice.
  - In the code, a second `sleep` before a `resume` overwrites the pending
    start, and a `resume` with nothing pending is ignored.
  - So interleaved signals collapse to one interval from the later start
    (`EventFold.InterleavedSignalsCollapse`).
  - Only pairs that follow one another add up (`EventFold.TwoSleeps`).

## Model

| member | source | states |
|---|---|---|
| Calendar.WholeMinutes | database/queries.py:39 | `int(seconds / 60)`: the whole minutes, truncated toward zero for either sign |
| Calendar.TimedeltaSeconds | gui/admin_dashboard.py:507-508 | `timedelta.seconds`: in [0, 86400), congruent to the elapsed seconds modulo a day, and equal to them below a day |
| Calendar.Hms | gui/employee_dashboard.py:238-240 | the two `divmod`s: minutes and seconds in [0, 60) and 3600·h + 60·m + s is the total, for any sign; hours non-negative when the total is (a negative total has negative hours: `Hms(-1) == (-1, 59, 59)`) |
| Calendar.HmsUnique | gui/employee_dashboard.py:238-240 | the `divmod` decomposition is the only one with minutes and seconds in [0, 60) |
| Calendar.MakeDate | gui/admin_dashboard.py:442-453 | `date(y, m, d)` succeeds exactly for a valid calendar date, giving an ordinal ≥ 1 |
| Calendar.PreviousDay | gui/admin_dashboard.py:448-450 | `- timedelta(days=1)` exists exactly after day 1 and is one day earlier |
| Calendar.DateOf | database/queries.py:17 | `clock_in_time.date()`: the day whose 86400 seconds contain the timestamp, counted as an ordinal from 1970-01-01 |
| Calendar.DateOfMonotone | database/queries.py:17 | the session date of a later clock-in is never earlier |
| Sorting.SortBy | database/queries.py:63 | the result is an ordering of the selected rows by the key: same rows (multiset equality), sorted |
| Sorting.InsertBy | database/queries.py:63 | inserting into a sorted sequence adds exactly that row and keeps the order |
| Sorting.OrderingUnique | database/queries.py:63 | when no two rows share a key, there is exactly one ordering of them |
| EventFold.FoldPairs | database/queries.py:69-79 | the loop's accumulated seconds are the sum of closed intervals of the reference pairing, and its pending start is the reference's unmatched start |
| EventFold.FoldIsPairing | database/queries.py:72-78 | the left fold of the loop body equals the reference: each close pairs with the latest open directly before it in the rows of the two kinds |
| EventFold.LaterStartOverwrites | database/queries.py:73-74 | a second `sleep` replaces the pending start and adds nothing |
| EventFold.OrphanEndIgnored | database/queries.py:75 | a `resume` with nothing pending changes nothing |
| EventFold.AppendPair | database/queries.py:75-78 | a `sleep` followed by a `resume` adds exactly their distance and leaves nothing pending |
| EventFold.TrailingStartAddsNothing | database/queries.py:73-80 | a trailing unmatched `sleep` adds no seconds, only a pending start |
| EventFold.OtherKindIgnored | database/queries.py:60-64 | a row of any other event type can be removed without changing the fold |
| EventFold.PairingConcat | database/queries.py:72-78 | the reference pairing of a concatenation is the concatenation of the pairings |
| EventFold.ClosedSecondsNonNegative | database/queries.py:63-78 | over time-ordered rows the closed intervals sum to ≥ 0 |
| EventFold.SleepMinutes | database/queries.py:69-80 | the reference sleep total: whole minutes of the reference pairing's closed intervals; the loop computes it (`FoldPairs`), and it is ≥ 0 over time-ordered rows (`SleepMinutesNonNegative`) |
| EventFold.SleepMinutesNonNegative | database/queries.py:63-80 | the sleep minutes of time-ordered rows are ≥ 0 |
| EventFold.IdleSeconds | database/queries.py:134-147 | the reference idle seconds: closed idle intervals plus the interval still open at `now`; ≥ 0 over time-ordered rows not after `now` (`IdleMinutesNonNegative`) |
| EventFold.IdleMinutes | database/queries.py:134-150 | the whole minutes of `IdleSeconds`, which the query returns and the idle monitor's status reports (`IdleMonitoring.IdleMonitor.CurrentStatus`) |
| EventFold.IdleMinutesNonNegative | database/queries.py:134-150 | over time-ordered rows and a `now` not before any of them, the idle seconds, trailing open interval included, and the idle minutes are ≥ 0 |
| EventFold.WorkMinutes | database/queries.py:39-40 | `max(0, total − sleep − idle)`: never negative, never below the difference, and either 0 or the difference |
| EventFold.TwoSleeps | database/queries.py:69-80 | two successive sleep/resume pairs of 15 and 10 minutes give 25 |
| EventFold.InterleavedSignalsCollapse | database/queries.py:73-78 | sleep, sleep, resume, resume counts only from the later sleep to the first resume |
| EventFold.SleepThenResumeAtOnce | database/queries.py:73-78 | with `sleep` ordered before an equal-time `resume`, the later resume finds nothing pending: 0 minutes |
| EventFold.ResumeThenSleepAtOnce | database/queries.py:73-78 | the same rows with the tie ordered the other way give 10 minutes |
| EventFold.TieOrderings | database/queries.py:63 | both orders of that tie are orderings of the same rows by time |
| EventFold.TiesChangeTheResult | database/queries.py:60-80 | there are two time-orderings of the same rows with different sleep minutes |
| Queries.EventsOf | database/queries.py:60-64 | exactly the rows of that session with one of the two event types |
| Queries.IndexOf | database/queries.py:35-36 | the position of a row with that id, or none when no row has it |
| Queries.IndexOfUnique | database/queries.py:35-36 | with distinct ids, the lookup finds each row at its own position |
| Queries.UsernameOf | database/queries.py:232 | the joined account's name, or none when no account has that id |
| Queries.UsernameOfUnique | database/queries.py:232 | with distinct account ids, the join finds an account's own name |
| Queries.JoinAccounts | database/queries.py:231-232 | the inner join: a session appears, with its account's name, exactly when it has an account (and, for the open listing, no clock-out) |
| Queries.OpenIdsOf | database/queries.py:389-392 | exactly the ids of the account's sessions without clock-out |
| Queries.OpenIdsDistinct | database/queries.py:389-394 | with distinct session ids, no open id is listed twice |
| Queries.LatestOpen | database/queries.py:372-381 | none exactly when the account has no open session, otherwise one of its open sessions with the latest clock-in |
| Queries.Latest | database/queries.py:169-176 | a row with no later row among them |
| Queries.LatestTimeUnique | database/queries.py:170-176 | any two latest rows have the same time |
| Queries.SleepMinutesDetermined | database/queries.py:60-80 | when the session's sleep rows have distinct times, the sleep minutes do not depend on the order the database returns them in |
| Queries.IdleMinutesDetermined | database/queries.py:124-150 | likewise for the idle minutes |
| Queries.ClosedByKeepsId | database/queries.py:43-47 | closing keeps the row's id, account and clock-in and sets its clock-out |
| Queries.ClosesRowKeepsIndex | database/queries.py:43-47 | a closed row is still found under its id at the same position |
| Queries.ClosesRowTwice | database/queries.py:43-47 | closing the same row twice leaves the second clock-out and every other row unchanged; there is no already-closed guard |
| Queries.MacOrUnknown | database/queries.py:297 | the MAC if it is set and non-empty, else "Unknown" |
| Queries.NewestFirstIsNewestDateFirst | database/queries.py:233 | sorting by clock-in descending also sorts by session date descending, since the date is the clock-in's date |
| Queries.EventsOutside | database/queries.py:448-453 | exactly the events whose session is not one of the given ones |
| Queries.SessionsNotOf | database/queries.py:455 | exactly the sessions of other accounts, with ids still distinct |
| Queries.FeedbackNotOf | database/queries.py:456 | exactly the feedback of other accounts |
| Queries.AccountsOtherThan | database/queries.py:457 | exactly the other accounts, with ids still distinct |
| Queries.NothingDeletedIffAbsent | database/queries.py:457-460 | deleting the account row removes nothing exactly when no account has that id (`rowcount == 0`) |
| Queries.InDateRange | database/queries.py:317-326 | exactly the rows whose session date lies between the bounds, inclusive |
| Queries.FilterByDate | database/queries.py:317-328 | the filtering loop keeps the rows in the range, in their original order |
| Queries.ClosedAmongStep | database/queries.py:397-398 | ending the next open session extends the set of sessions closed so far by that one |
| Queries.ClosedAllOpen | database/queries.py:384-401 | when every open id has been closed, each open session of the account is closed and every other row is unchanged |
| Queries.SessionStore.StartSession | database/queries.py:6-21 | appends one open session with the next id, dated by its clock-in, recording the given MAC or the detected one; no open-session check; fails, changing nothing, when unreachable |
| Queries.SessionStore.LogSleepEvent | database/queries.py:85-94 | appends exactly one event row stamped `now`, or fails, changing nothing |
| Queries.SessionStore.LogIdleEvent | database/queries.py:96-116 | appends one row with source 'idle' and reports whether it did |
| Queries.SessionStore.CalculateSleepMinutes | database/queries.py:54-83 | the sleep minutes of some time-ordering of the session's sleep/resume rows, never negative, and 0 when the database is unreachable |
| Queries.SessionStore.CalculateIdleMinutes | database/queries.py:118-153 | the idle minutes of some time-ordering of the session's idle rows, trailing open interval up to `now` included; 0 when unreachable; ≥ 0 when no row is after `now` |
| Queries.SessionStore.IsCurrentlyIdle | database/queries.py:155-182 | true only for a reachable, existing, open session whose latest idle row is an idle_start; when false for such a session with idle rows, its latest idle row is an idle_end |
| Queries.SessionStore.CurrentIdleDurationMinutes | database/queries.py:184-211 | 0 unless currently idle, else the whole minutes since a latest idle_start; ≥ 0 when no row is after `now` |
| Queries.SessionStore.EndSession | database/queries.py:23-52 | fails when unreachable or the id is unknown; otherwise closes that row alone, storing clock-out, work and sleep minutes (idle not stored), and returns the work minutes, ≥ 0 |
| Queries.SessionStore.DescribeOpenSession | database/queries.py:280-304 | the status dictionary of one open session: sleep, idle, idle flag, current idle duration (0 when not idle), total and work minutes, MAC or 'Unknown' |
| Queries.SessionStore.DescribesAllAt | database/queries.py:278-304 | the i-th status row describes the i-th open session |
| Queries.SessionStore.DescribeOpenSessions | database/queries.py:278-306 | the loop describes every fetched session, in order |
| Queries.SessionStore.ActiveSessionsWithStatus | database/queries.py:261-309 | [] when unreachable; otherwise one status per open session with an account, newest clock-in first, none with negative work or sleep minutes |
| Queries.SessionStore.ListSession | database/queries.py:241-254 | one listing tuple: stored sleep for a closed session, fresh sleep for an open one, fresh idle always, NULL work as 0 and NULL MAC as 'Unknown' |
| Queries.SessionStore.FetchAllSessionsWithIdle | database/queries.py:213-259 | [] when unreachable; otherwise one such tuple per session with an account, newest date first |
| Queries.SessionStore.FetchSessionsByDateRangeWithIdle | database/queries.py:311-331 | the full listing filtered to the date range, order kept |
| Queries.SessionStore.GetActiveSession | database/queries.py:368-382 | fails exactly when unreachable; none exactly when the account has no open session; otherwise the id and clock-in of an open session with the latest clock-in |
| Queries.SessionStore.CloseNextOpen | database/queries.py:397-398 | one round of the loop closes one more of the open sessions that were found |
| Queries.SessionStore.AutoClockOutAllSessions | database/queries.py:384-401 | every open session of the account is closed with the one clock-out, every other row kept, and the count of open sessions returned |
| Queries.SessionStore.DeleteUser | database/queries.py:442-469 | removes the account's events, sessions, feedback and account row; with no such account it raises and rolls back, changing nothing |
| FeedbackQuery.KeywordPattern | database/queries.py:520 | `%` + the stripped keyword + `%` |
| FeedbackQuery.AddIf | database/queries.py:510-521 | a clause added only under its condition, after what was there |
| FeedbackQuery.QueryFor | database/queries.py:500-523 | the text always starts with the SELECT … WHERE 1=1 and ends with the ORDER BY |
| FeedbackQuery.ParamsFor | database/queries.py:508-521 | two date, one mood and two keyword parameters, each only when its filter is on |
| FeedbackQuery.ParamsForLayout | database/queries.py:508-521 | the parameters sit in clause order: the two dates first, then the mood, then the keyword pattern twice |
| FeedbackQuery.PlaceholdersAppend | database/queries.py:500-523 | growing the text adds up the `?` marks of its parts |
| FeedbackQuery.ClauseMarks | database/queries.py:511-519 | the date clause has two `?`, the mood clause one, the keyword clause two, the fixed parts none |
| FeedbackQuery.QueryForMarks | database/queries.py:500-523 | the text has as many `?` as its enabled clauses need |
| FeedbackQuery.PlaceholdersMatchParams | database/queries.py:500-526 | the query passed to `execute` has exactly one `?` per parameter, for every input |
| FeedbackQuery.BuildFeedbackQuery | database/queries.py:496-523 | the step-by-step growth yields that query and parameter list |
| IdleMonitoring.CloseAtNowKeepsIdleSeconds | utils/idle_monitor.py:58-61 | closing the open idle interval at `now` leaves the idle seconds measured at `now` unchanged |
| IdleMonitoring.TracksStart | utils/idle_monitor.py:69-72 | turning idle and logging idle_start keeps the monitor's invariant |
| IdleMonitoring.TracksEnd | utils/idle_monitor.py:74-80 | turning active (or stopping) and logging idle_end keeps the invariant, adding the interval to the total |
| IdleMonitoring.IdleMonitor.IdleIffStarted | utils/idle_monitor.py:69-80 | `is_idle` holds exactly when `idle_start_time` is set |
| IdleMonitoring.IdleMonitor.constructor | utils/idle_monitor.py:37-45 | the given threshold, 300 seconds by default; not idle, no start time, total 0, not monitoring, nothing logged |
| IdleMonitoring.IdleMonitor.StartMonitoring | utils/idle_monitor.py:47-52 | monitoring afterwards; only the flag may change |
| IdleMonitoring.IdleMonitor.Poll | utils/idle_monitor.py:67-80 | Active → Idle at or above the threshold logs idle_start at `now`; Idle → Active below it adds the interval and logs idle_end; every other case changes nothing; rows logged alternate; the total never decreases when the pending idle start is not later than `now` (an earlier `now` is not excluded by the source and would subtract) |
| IdleMonitoring.IdleMonitor.StopMonitoring | utils/idle_monitor.py:54-61 | monitoring off; if idle, the interval up to `now` is added and idle_end logged, with the idle flag and start kept; the idle seconds at `now` of the log are unchanged |
| IdleMonitoring.IdleMonitor.CurrentStatus | utils/idle_monitor.py:95-111 | the idle flag; the total minutes, in-progress interval included, equal the idle minutes of the rows the monitor logged; the current duration is the sample when idle, 0 otherwise |
| IdleMonitoring.MonitorKeyReadsBack | utils/idle_monitor.py:117 | the key `f"{account_id}_{session_id}"` is the account's digits, one `_`, then the session's digits, and both numbers read back from it |
| IdleMonitoring.MonitorKeyInjective | utils/idle_monitor.py:117 | the key `f"{account_id}_{session_id}"` names one account and session |
| IdleMonitoring.RegisteredInsert | utils/idle_monitor.py:127-129 | storing a running monitor under its own key keeps the registry's invariant |
| IdleMonitoring.MonitorRegistry.KeysNameDistinctMonitors | utils/idle_monitor.py:113 | different keys hold different monitor objects |
| IdleMonitoring.MonitorRegistry.constructor | utils/idle_monitor.py:113 | an empty registry |
| IdleMonitoring.MonitorRegistry.Drop | utils/idle_monitor.py:119-121 | stops and deletes the key's monitor, logging idle_end exactly when it was idle; every other key keeps its monitor, and that monitor keeps every field (`Untouched`) |
| IdleMonitoring.MonitorRegistry.StartIdleMonitoring | utils/idle_monitor.py:115-131 | the old monitor under the key is stopped and deleted, logging idle_end exactly when it was idle; a negative sample returns none and leaves the key absent; otherwise exactly one fresh running monitor with the given threshold (300 seconds by default) is stored under it; the monitors under the other keys keep every field |
| IdleMonitoring.MonitorRegistry.Launch | utils/idle_monitor.py:127-128 | a fresh monitor for that session, started |
| IdleMonitoring.MonitorRegistry.Install | utils/idle_monitor.py:127-131 | with the key free, exactly one fresh running monitor for the session, with the given threshold, is stored under its key; the registry invariant is kept |
| IdleMonitoring.MonitorRegistry.StopIdleMonitoring | utils/idle_monitor.py:133-139 | the key's monitor is stopped and deleted, with idle_end logged exactly when it was idle; the other keys keep their monitors, and those monitors keep every field |
| IdleMonitoring.MonitorRegistry.GetIdleStatus | utils/idle_monitor.py:141-149 | not idle with zeros for an absent key; otherwise that monitor's flag, its idle minutes (the logged rows' idle minutes at `now`), and the current idle duration: the sample while idle, else 0 |
| MacAddress.NodeLimitIsPow16 | utils/mac_address.py:10 | 2^48 is 16^12: twelve hex digits hold every node |
| MacAddress.Hex | utils/mac_address.py:10 | `format(n, '0{w}x')`: w lowercase hex digits whose value is n |
| MacAddress.UpperHex | utils/mac_address.py:11 | uppercasing hex digits keeps their value |
| MacAddress.HexNumberUnique | utils/mac_address.py:10-11 | two uppercase hex strings of one length with one value are equal |
| MacAddress.RepeatNumber | utils/mac_address.py:13 | the value of a digit written w times |
| MacAddress.RemoveSeparators | utils/mac_address.py:57 | `re.sub(r'[:-]', '', s)`: no ':' or '-' left, nothing new added |
| MacAddress.RemoveSeparatorsAppend | utils/mac_address.py:57 | removal distributes over concatenation |
| MacAddress.RemoveSeparatorsNone | utils/mac_address.py:57 | a string without separators is left as it is |
| MacAddress.Pairs | utils/mac_address.py:60 | `s[i:i+2] for i in range(0, len, 2)`: two-character pieces |
| MacAddress.ConcatPairs | utils/mac_address.py:60 | the pieces put back together are the string |
| MacAddress.JoinLayout | utils/mac_address.py:60 | `':'.join` of two-character pieces puts ':' at every third place and the pieces between |
| MacAddress.JoinWithoutSeparators | utils/mac_address.py:57-60 | removing the separators of the joined text gives the pieces concatenated |
| MacAddress.ColonPairsGrouped | utils/mac_address.py:60 | joining the pairs of 12 characters gives the 17-character `XX:XX:XX:XX:XX:XX` layout |
| MacAddress.GroupedUnique | utils/mac_address.py:59-60 | two grouped texts are equal exactly when their 12 characters are |
| MacAddress.UpperGrouped | utils/mac_address.py:11 | uppercasing a grouped text groups the uppercased characters |
| MacAddress.RemoveSeparatorsOfGrouped | utils/mac_address.py:57-60 | removing the colons of a grouped text gives its 12 characters back |
| MacAddress.FormatMac | utils/mac_address.py:50-62 | None or empty gives "Unknown-Device"; 12 characters left after uppercasing and removing ':' and '-' gives them grouped; otherwise the input unchanged, not uppercased |
| MacAddress.FormatGrouped | utils/mac_address.py:57-60 | a grouped text of uppercase characters formats to itself |
| MacAddress.UpperKeepsSeparators | utils/mac_address.py:57 | uppercasing neither adds nor removes separators |
| MacAddress.UnknownDeviceStays | utils/mac_address.py:54-62 | "Unknown-Device" does not clean to 12 characters, so it formats to itself |
| MacAddress.FormatMacIdempotent | utils/mac_address.py:50-62 | formatting a formatted MAC changes nothing, for every input |
| MacAddress.NodeMac | utils/mac_address.py:9-11 | the MAC text of a node is 17 characters long |
| MacAddress.NodeMacLayout | utils/mac_address.py:9-11 | it is the grouped, uppercased 12-digit hex of the node |
| MacAddress.NodeMacInjective | utils/mac_address.py:9-11 | two nodes give the same text exactly when they are equal |
| MacAddress.NodeMacFormatted | utils/mac_address.py:9-11 | the node's text is already in `format_mac_address` form |
| MacAddress.NodeMacOfRepeat | utils/mac_address.py:13 | the node of twelve equal digits gives the grouped text of those digits |
| MacAddress.SpecialMacs | utils/mac_address.py:13 | 00:00:00:00:00:00 and FF:FF:FF:FF:FF:FF are the grouped all-0 and all-F digits |
| MacAddress.MacFromNode | utils/mac_address.py:9-14 | the node's text is rejected exactly for node 0 and node 2^48 − 1, and is otherwise returned, already formatted |
| MacAddress.GetMacAddress | utils/mac_address.py:7-48 | the node's text unless rejected, then the scanned address or "Unknown-Device" |
| AdminDashboard.DateRange | gui/admin_dashboard.py:433-458 | no filter exactly when no year is chosen; any range has 1 ≤ start ≤ end |
| AdminDashboard.MonthEnd | gui/admin_dashboard.py:447-450 | the day before the next month's first (across the year for December) is the month's last day |
| AdminDashboard.SingleDay | gui/admin_dashboard.py:440-443 | year, month and day give that day as start and end, or the date error when invalid (31 April) |
| AdminDashboard.WholeMonth | gui/admin_dashboard.py:444-450 | year and month give the 1st through the month's last day |
| AdminDashboard.WholeYear | gui/admin_dashboard.py:451-453 | a year alone gives 1 January through 31 December |
| AdminDashboard.NoYearNoFilter | gui/admin_dashboard.py:434-458 | with no year, day and month are ignored and no date filter applies |
| AdminDashboard.SearchKey | gui/admin_dashboard.py:427-428 | `.text().strip().lower()`: no longer than the text, no leading or trailing whitespace, no upper-case ASCII letter |
| AdminDashboard.SearchKeyIdempotent | gui/admin_dashboard.py:427-428 | reading a search key again changes nothing |
| Text.ContainsIffOccurs | gui/admin_dashboard.py:465-466 | `sub in s` holds exactly when `sub` occurs at some index of `s` |
| AdminDashboard.RowMatchesIffOccurs | gui/admin_dashboard.py:465-466 | `employee_match and mac_match`: each non-empty search occurs at some index of the lower-cased username, resp. MAC address (both directions) |
| AdminDashboard.Matching | gui/admin_dashboard.py:460-470 | exactly the rows whose lowercased name and MAC contain the searches (an empty search matches all) |
| AdminDashboard.MatchingAppend | gui/admin_dashboard.py:460-470 | filtering distributes over concatenation, so order is preserved |
| AdminDashboard.MatchingEverything | gui/admin_dashboard.py:460-470 | when every row matches, the listing is unchanged |
| AdminDashboard.TextFilter | gui/admin_dashboard.py:460-470 | the loop keeps exactly the matching rows, in order |
| AdminDashboard.FilterSessionsByDropdowns | gui/admin_dashboard.py:422-476 | an impossible date warns and shows everything; otherwise the rows shown are exactly those in the date range matching both searches |
| AdminDashboard.IdleUsers | gui/admin_dashboard.py:355 | at most one name per session; a name is listed exactly when some idle session has it |
| AdminDashboard.IdleCount | gui/admin_dashboard.py:350 | `sum(1 for s in sessions if s['is_idle'])`; at most the number of sessions, and equal to the number of idle users (`IdleCountIsIdleUsers`) |
| AdminDashboard.IdleCountIsIdleUsers | gui/admin_dashboard.py:350-355 | the idle count is the number of idle users listed |
| AdminDashboard.Summarize | gui/admin_dashboard.py:349-356 | total, idle = idle sessions, working = total − idle ≥ 0, the first three idle names, and "..." exactly when more than three are idle |
| AdminDashboard.OrZero | gui/admin_dashboard.py:534-536 | a missing value shows as 0 |
| AdminDashboard.SessionCells | gui/admin_dashboard.py:525-567 | work, sleep and idle with 0 defaults; a closed row shows its clock-out; an open row shows Active, with the idle marker exactly when it has both ids and the registry's monitor for them is idle |
| AdminDashboard.PopulateSessionsTable | gui/admin_dashboard.py:520-570 | one table row per session row, each built by those rules |
| AdminDashboard.DisplayName | gui/admin_dashboard.py:599 | the username when non-empty, else "Anonymous"; never empty |
| AdminDashboard.CommentPreview | gui/admin_dashboard.py:603-605 | no comment gives ""; up to 50 characters the comment itself; longer, its first 50 characters and "..." |
| AdminDashboard.AdminTimerAsWritten | gui/admin_dashboard.py:504-510 | the timer as written reads back as `elapsed.seconds`, the elapsed seconds modulo a day, whatever the sign |
| AdminDashboard.AdminTimer | gui/admin_dashboard.py:504-510 | the timer text with total seconds reads back as the elapsed time, for any sign |
| AdminDashboard.AdminTimerWrapsAfterADay | gui/admin_dashboard.py:507-508 | with `elapsed.seconds`, 25 hours shows as 01:00:00 |
| AdminDashboard.AdminTimerAgreesForADay | gui/admin_dashboard.py:504-510 | the text as written is right during the first day; from a day on it shows too little, before the clock-in too much, in each case the elapsed time modulo a day |
| AdminDashboard.TimersBeforeClockIn | gui/admin_dashboard.py:504-510 | one second before the clock-in the admin timer shows 23:59:59 and the total-seconds timer -1:59:59 |
| EmployeeDashboard.ReadUnitsSmall | gui/employee_dashboard.py:290-291 | below 60, "{n}m" reads back as n |
| EmployeeDashboard.ReadUnitsLarge | gui/employee_dashboard.py:292-295 | from 60 on, "{n//60}h {n%60}m" reads back as n |
| EmployeeDashboard.UnitsRoundTrip | gui/employee_dashboard.py:289-295 | every two-unit text reads back as the count it was made from |
| EmployeeDashboard.FormatMinutes | gui/employee_dashboard.py:289-295 | `format_minutes`: a non-negative count reads back from its "{n}m" / "{h}h {m}m" text; different counts give different texts (`FormatMinutesInjective`) |
| EmployeeDashboard.IdleDurationText | gui/employee_dashboard.py:259-266 | the "Idle for" seconds text (and the system-idle one, lines 251-256): a non-negative count reads back from it; injective (`IdleDurationTextInjective`) |
| EmployeeDashboard.FormatMinutesInjective | gui/employee_dashboard.py:289-295 | different minute counts never show the same text |
| EmployeeDashboard.IdleDurationTextInjective | gui/employee_dashboard.py:259-266 | different idle durations never show the same "Idle for" text |
| EmployeeDashboard.LiveWorkMinutes | gui/employee_dashboard.py:284-287 | 0 without a clock-in; with one, exactly `max(0, minutes since clock-in − sleep − idle)`: ≥ 0, never below the difference, and either 0 or the difference; never above the minutes since clock-in |
| EmployeeDashboard.ClosedNowIsLive | gui/employee_dashboard.py:284-287 | the live figure equals the work minutes end_session stores for the same inputs |
| EmployeeDashboard.LiveWorkIsEndSessionWork | gui/employee_dashboard.py:280-287 | a session closed now stores exactly the live figure, for the sleep and idle minutes end_session finds |
| EmployeeDashboard.TimerText | gui/employee_dashboard.py:236-241 | at least "HH:MM:SS" long, for any elapsed time, negative included; its partner is `TimerTextRoundTrip` |
| EmployeeDashboard.ParseZeroPad2 | gui/employee_dashboard.py:241 | a `:02d` field reads back as its number, a negative one (sign and digits) included |
| EmployeeDashboard.TimerTextRoundTrip | gui/employee_dashboard.py:236-241 | the timer text reads back as the total elapsed seconds, past 24 hours and below 0 too (negative hours as `:02d` prints them) |
| DashboardSession.Dashboard.constructor | gui/employee_dashboard.py:21-29 | no session, no clock-in, feedback not shown; the idle threshold is 60 seconds for the admin window and 300 for the employee window (gui/admin_dashboard.py:339, gui/employee_dashboard.py:227) |
| DashboardSession.Dashboard.AutoClockIn | gui/admin_dashboard.py:317-323 | the clock-in time is set to `now`, then a session is started at it; if start_session raises, the session id stays |
| DashboardSession.Dashboard.CheckAndHandleExistingSession | gui/admin_dashboard.py:305-315 | the account's latest open session is reused as it is; with none, or when the lookup fails, the user is clocked in at `now` |
| DashboardSession.Dashboard.StartIdleTracking | gui/admin_dashboard.py:325-339 | with a session and a clock-in: a monitor already under the session's key is stopped and removed, logging idle_end exactly when it was idle; if the idle sample is non-negative, a fresh non-idle monitor with the window's threshold replaces it, otherwise the key is left absent; the other monitors keep every field. Without a session or clock-in, nothing changes |
| DashboardSession.Dashboard.ShowFeedbackDialog | gui/admin_dashboard.py:683-697 | the dialog opens only if not shown before; afterwards it has been shown |
| DashboardSession.Dashboard.Logout | gui/admin_dashboard.py:630-642 | feedback shown at most once; with a session, its monitor is stopped (idle_end logged if idle) before end_session closes it; without one, every open session of the account is clocked out; the other monitors keep every field |
| DashboardSession.Dashboard.EndCurrentSession | gui/admin_dashboard.py:636-640 | with a session: its monitor is stopped and removed (idle_end logged exactly when it was idle), then end_session closes that row at `now`, or changes nothing when unreachable or unknown; the other monitors keep every field |
| DashboardSession.Dashboard.EndAllOpenSessions | gui/admin_dashboard.py:641-642 | without a session: every open session of the account is closed at `now`, the other rows are kept, no event is logged; nothing changes when unreachable |
| DashboardSession.Dashboard.LogoutThenClose | gui/employee_dashboard.py:340-386 | logout followed by the close event, in either window (the admin one, gui/admin_dashboard.py:630-678, schedules `self.close`, whose handler runs the logout logic again): the dialog still opens at most once, the session is ended twice and keeps the second clock-out, other rows and the other monitors untouched |

## Left out

- Database connections, SQL execution and the SQL dialect: tables are in-memory sequences, and the `WHERE`, `JOIN`, `ISNULL`, `ORDER BY` and `TOP 1` effects are written out by hand.
- `datetime.now()`, microseconds and floating point: times are whole seconds passed in as parameters. The idle sample is a whole number of seconds.
- `get_idle_duration` (the Win32 `GetLastInputInfo` / `GetTickCount` calls): its value is the `sample` parameter.
- Threads, `time.sleep` polling and the Qt timers: one poll step and single calls are modelled, with no concurrency.
- The `getmac`, `cat` and `ifconfig` fallbacks of `get_mac_address` and their regular expressions: what they find is the `scanned` parameter.
- `authenticate_user`, user management, the login window, the theme manager and `main.py`: outside the accounting core.
- `fetch_all_sessions` and `fetch_sessions_by_date_range`: they only dispatch to the two listings that are modelled.
- `fetch_sessions_by_date_range_with_idle`'s parsing of a `session_date` string: session dates are date ordinals from the start.
- The timeout monitor, the activity-monitor thread and utils/activity_monitor.py, which only feed sleep/resume rows into the table the fold reads.
- The feedback dialog's submit callback (`insert_feedback`): the dialog is only counted.
- Widgets, colours, fonts and the emoji prefixes of the labels: only the text that depends on numbers is modelled.
- Unicode case mapping and whitespace: `lower`, `upper` and `strip` are modelled on ASCII.
- The rendering of `populate_live_status_table`. The summary label text is `AdminDashboard.SummaryText`, which has no contract beyond its definition.
- MacAddress.MacFromNode: requires a node below 2^48, which is what `uuid.getnode()` returns.
- AdminDashboard.WholeMonth: December 9999 has no next year, so it gives the date error, as `date(10000, 1, 1)` raises.
- IdleMonitoring.IdleMonitor.StopMonitoring: a monitor stopped while idle keeps its idle flag. Polling it, restarting it or stopping it again is not modelled, since the registry drops a monitor as soon as it stops it.
- Float rounding of the per-interval minutes: the source adds `total_seconds() / 60` for each interval as floats before `int()`, so ten 6-second sleeps sum to 0.9999999999999999 and give 0, where the model's exact sum of 60 seconds gives 1. `EventFold.SleepMinutes`, `EventFold.IdleMinutes`, `Queries.SessionStore.CalculateSleepMinutes` and `Queries.SessionStore.CalculateIdleMinutes` are the exact-arithmetic totals.
- Queries.SessionStore.CalculateIdleMinutes: its result is only proved ≥ 0 when no event is later than `now`; with a later row a negative interval is possible.
- Queries.SessionStore.IsCurrentlyIdle: with several latest idle rows at one time, it says only that one of them has the kind reported.

## Findings

| source | as written | input that shows it | evidently intended | confidence | as-written member | corrected member |
|---|---|---|---|---|---|---|
| gui/admin_dashboard.py:504-510 | the admin timer is built from `elapsed.seconds`, which drops whole days | a session open 25 hours (90000 s) shows 01:00:00 | the total elapsed time, as the employee timer does with `int(elapsed.total_seconds())` (gui/employee_dashboard.py:236-241) | not executed | AdminDashboard.AdminTimerAsWritten, AdminDashboard.AdminTimerWrapsAfterADay | AdminDashboard.AdminTimer |
