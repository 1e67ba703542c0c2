/**
 * The sessions, sleep_events, accounts and feedback tables of database/queries.py,
 * held in memory, and the queries and updates the accounting code runs on them.
 *
 * A query's `ORDER BY` is modelled by "some ordering of the selected rows"
 * (Sorting.IsOrderingOf), a `TOP 1 ... ORDER BY t DESC` by "a row with the
 * greatest t", `ISNULL(x, d)` by `x.GetOr(d)` and an inner JOIN by a lookup
 * that drops unmatched rows. Whether the database can be reached at all is the
 * store's `connected` flag: where the source catches the exception the query
 * yields its fallback (0, False, []); where it lets it escape the operation
 * returns `Failure(Unavailable)` and changes nothing.
 */
module Queries {
  import opened Wrappers
  import opened Calendar
  import opened Sorting
  import opened EventFold

  /** A row of the sessions table. */
  datatype Session = Session(
    id: nat, accountId: nat, clockIn: Timestamp, clockOut: Option<Timestamp>, sessionDate: int,
    deviceMac: Option<string>, totalWorkMinutes: Option<int>, sleepMinutes: Option<int>)

  /** The columns of the accounts table the accounting code reads. */
  datatype Account = Account(id: nat, username: string)

  /** A row of the feedback table. */
  datatype Feedback = Feedback(id: nat, accountId: nat, mood: string, comment: Option<string>, anonymous: bool, submittedAt: Timestamp)

  datatype StoreError = Unavailable | SessionNotFound | UserNotFound

  /** A session joined with its account's username. */
  datatype Joined = Joined(session: Session, username: string)

  /** A dictionary of get_active_sessions_with_status. */
  datatype SessionStatus = SessionStatus(
    sessionId: nat, accountId: nat, username: string, clockIn: Timestamp, mac: string, isIdle: bool,
    sleepMinutes: int, idleMinutes: int, workMinutes: int, totalMinutes: int, currentIdleDuration: int)

  /**
   * A tuple of the session listings. The listings fill every field; the None
   * cases are those of a shorter tuple from elsewhere, which the table view
   * shows with defaults.
   */
  datatype SessionRow = SessionRow(
    mac: string, username: string, clockIn: Timestamp, clockOut: Option<Timestamp>, sessionDate: int,
    workMinutes: Option<int>, sleepMinutes: Option<int>, idleMinutes: Option<int>,
    sessionId: Option<nat>, accountId: Option<nat>)

  // ---------------------------------------------------------------------------
  // Row selections (the WHERE clauses)

  /** `SELECT ... FROM sleep_events WHERE session_id = sid AND event_type IN (a, b)`, in table order. */
  function EventsOf(es: seq<Event>, sid: nat, a: EventKind, b: EventKind): (r: seq<Event>)
    ensures forall e :: e in r <==> e in es && e.sessionId == sid && (e.kind == a || e.kind == b)
    decreases |es|
  {
    if es == [] then []
    else
      var rest := EventsOf(es[1..], sid, a, b);
      assert forall e :: e in es <==> e == es[0] || e in es[1..];
      if es[0].sessionId == sid && (es[0].kind == a || es[0].kind == b) then [es[0]] + rest else rest
  }

  /** The position of the row with this id. */
  function IndexOf(ss: seq<Session>, sid: nat): (k: Option<nat>)
    ensures k.Some? ==> k.value < |ss| && ss[k.value].id == sid
    ensures k.None? ==> forall i :: 0 <= i < |ss| ==> ss[i].id != sid
    decreases |ss|
  {
    if ss == [] then None
    else if ss[0].id == sid then Some(0)
    else
      match IndexOf(ss[1..], sid)
      case Some(k) => Some(k + 1)
      case None => None
  }

  predicate DistinctIds(ss: seq<Session>) {
    forall i, j :: 0 <= i < j < |ss| ==> ss[i].id != ss[j].id
  }

  lemma {:induction false} IndexOfUnique(ss: seq<Session>, k: nat)
    requires DistinctIds(ss) && k < |ss|
    ensures IndexOf(ss, ss[k].id) == Some(k)
    decreases |ss|
  {
    if k > 0 {
      assert ss[0].id != ss[k].id;
      assert DistinctIds(ss[1..]) by {
        forall i, j | 0 <= i < j < |ss| - 1 ensures ss[1..][i].id != ss[1..][j].id {
          assert ss[1..][i] == ss[i + 1] && ss[1..][j] == ss[j + 1];
        }
      }
      IndexOfUnique(ss[1..], k - 1);
    }
  }

  function UsernameOf(accounts: seq<Account>, id: nat): (r: Option<string>)
    ensures r.Some? ==> Account(id, r.value) in accounts
    ensures r.None? ==> forall a :: a in accounts ==> a.id != id
    decreases |accounts|
  {
    if accounts == [] then None
    else if accounts[0].id == id then Some(accounts[0].username)
    else UsernameOf(accounts[1..], id)
  }

  lemma {:induction false} UsernameOfUnique(accounts: seq<Account>, a: Account)
    requires forall i, j :: 0 <= i < j < |accounts| ==> accounts[i].id != accounts[j].id
    requires a in accounts
    ensures UsernameOf(accounts, a.id) == Some(a.username)
    decreases |accounts|
  {
    if accounts[0] != a {
      var i :| 0 <= i < |accounts| && accounts[i] == a;
      assert i > 0 && accounts[0].id != a.id;
      assert accounts[1..][i - 1] == a;
      forall i, j | 0 <= i < j < |accounts| - 1 ensures accounts[1..][i].id != accounts[1..][j].id {
        assert accounts[1..][i] == accounts[i + 1] && accounts[1..][j] == accounts[j + 1];
      }
      UsernameOfUnique(accounts[1..], a);
    }
  }

  predicate IsOpenOf(s: Session, accountId: nat) {
    s.accountId == accountId && s.clockOut.None?
  }

  /** `FROM sessions s JOIN accounts a ON s.account_id = a.id` (only open sessions when `openOnly`). */
  function JoinAccounts(ss: seq<Session>, accounts: seq<Account>, openOnly: bool): (r: seq<Joined>)
    ensures forall j :: j in r <==>
      j.session in ss && Account(j.session.accountId, j.username) in accounts
      && (openOnly ==> j.session.clockOut.None?) && UsernameOf(accounts, j.session.accountId) == Some(j.username)
    decreases |ss|
  {
    if ss == [] then []
    else
      var rest := JoinAccounts(ss[1..], accounts, openOnly);
      assert forall s :: s in ss <==> s == ss[0] || s in ss[1..];
      var s := ss[0];
      match UsernameOf(accounts, s.accountId)
      case Some(u) => if !openOnly || s.clockOut.None? then [Joined(s, u)] + rest else rest
      case None => rest
  }

  /** `ids of SELECT id FROM sessions WHERE account_id = ? AND clock_out IS NULL`, in table order. */
  function OpenIdsOf(ss: seq<Session>, accountId: nat): (r: seq<nat>)
    ensures forall id :: id in r <==> exists s :: s in ss && s.id == id && IsOpenOf(s, accountId)
    decreases |ss|
  {
    if ss == [] then []
    else
      var rest := OpenIdsOf(ss[1..], accountId);
      assert forall s :: s in ss <==> s == ss[0] || s in ss[1..];
      if IsOpenOf(ss[0], accountId) then [ss[0].id] + rest else rest
  }

  lemma {:induction false} OpenIdsDistinct(ss: seq<Session>, accountId: nat)
    requires DistinctIds(ss)
    ensures forall i, j :: 0 <= i < j < |OpenIdsOf(ss, accountId)| ==> OpenIdsOf(ss, accountId)[i] != OpenIdsOf(ss, accountId)[j]
    decreases |ss|
  {
    if ss != [] {
      assert DistinctIds(ss[1..]) by {
        forall i, j | 0 <= i < j < |ss| - 1 ensures ss[1..][i].id != ss[1..][j].id {
          assert ss[1..][i] == ss[i + 1] && ss[1..][j] == ss[j + 1];
        }
      }
      OpenIdsDistinct(ss[1..], accountId);
      var rest := OpenIdsOf(ss[1..], accountId);
      forall t | t in rest ensures t != ss[0].id {
        var s :| s in ss[1..] && s.id == t && IsOpenOf(s, accountId);
        var m :| 0 <= m < |ss[1..]| && ss[1..][m] == s;
        assert ss[m + 1] == s;
      }
      if IsOpenOf(ss[0], accountId) {
        var r := [ss[0].id] + rest;
        forall i, j | 0 <= i < j < |r| ensures r[i] != r[j] {
          if i == 0 {
            assert r[j] == rest[j - 1] && rest[j - 1] in rest;
          } else {
            assert r[i] == rest[i - 1] && r[j] == rest[j - 1];
          }
        }
      }
    }
  }

  /** The open session of the account with the latest clock-in (the later row on a tie). */
  function LatestOpen(ss: seq<Session>, accountId: nat): (r: Option<Session>)
    ensures r.None? <==> forall s :: s in ss ==> !IsOpenOf(s, accountId)
    ensures r.Some? ==> (r.value in ss && IsOpenOf(r.value, accountId)
      && forall s :: s in ss && IsOpenOf(s, accountId) ==> s.clockIn <= r.value.clockIn)
    decreases |ss|
  {
    if ss == [] then None
    else
      var rest := LatestOpen(ss[1..], accountId);
      assert forall s :: s in ss <==> s == ss[0] || s in ss[1..];
      if !IsOpenOf(ss[0], accountId) then rest
      else if rest.Some? && rest.value.clockIn >= ss[0].clockIn then rest
      else Some(ss[0])
  }

  /** `e` is a row that `TOP 1 ... ORDER BY event_time DESC` may return from `rows`. */
  ghost predicate IsLatest(e: Event, rows: seq<Event>) {
    e in rows && forall x :: x in rows ==> x.time <= e.time
  }

  function Latest(rows: seq<Event>): (e: Event)
    requires rows != []
    ensures IsLatest(e, rows)
    decreases |rows|
  {
    if |rows| == 1 then rows[0]
    else
      var l := Latest(rows[1..]);
      assert forall x :: x in rows <==> x == rows[0] || x in rows[1..];
      if rows[0].time > l.time then rows[0] else l
  }

  /** The greatest time of a non-empty set of rows is one number, whichever latest row is taken. */
  lemma LatestTimeUnique(e1: Event, e2: Event, rows: seq<Event>)
    requires IsLatest(e1, rows) && IsLatest(e2, rows)
    ensures e1.time == e2.time
  {
  }

  // ---------------------------------------------------------------------------
  // The results a query may give, whichever order ties come out in

  /** `m` is what calculate_sleep_minutes_for_session computes for `sid` from the rows `es`. */
  ghost predicate SleepMinutesAre(es: seq<Event>, sid: nat, m: int) {
    exists rows :: IsOrderingOf(rows, EventsOf(es, sid, Sleep, Resume), EventTime) && SleepMinutes(rows) == m
  }

  /** `m` is what calculate_idle_minutes_simple computes for `sid` at `now`. */
  ghost predicate IdleMinutesAre(es: seq<Event>, sid: nat, now: Timestamp, m: int) {
    exists rows :: IsOrderingOf(rows, EventsOf(es, sid, IdleStart, IdleEnd), EventTime) && IdleMinutes(rows, now) == m
  }

  /** No event of the table lies after `now`. */
  predicate NotAfter(es: seq<Event>, now: Timestamp) {
    forall e :: e in es ==> e.time <= now
  }

  /** Without two events at the same time, the sleep total is a single number. */
  lemma SleepMinutesDetermined(es: seq<Event>, sid: nat, m1: int, m2: int)
    requires KeysDistinct(EventsOf(es, sid, Sleep, Resume), EventTime)
    requires SleepMinutesAre(es, sid, m1) && SleepMinutesAre(es, sid, m2)
    ensures m1 == m2
  {
    var rows1 :| IsOrderingOf(rows1, EventsOf(es, sid, Sleep, Resume), EventTime) && SleepMinutes(rows1) == m1;
    var rows2 :| IsOrderingOf(rows2, EventsOf(es, sid, Sleep, Resume), EventTime) && SleepMinutes(rows2) == m2;
    OrderingUnique(rows1, rows2, EventsOf(es, sid, Sleep, Resume), EventTime);
  }

  lemma IdleMinutesDetermined(es: seq<Event>, sid: nat, now: Timestamp, m1: int, m2: int)
    requires KeysDistinct(EventsOf(es, sid, IdleStart, IdleEnd), EventTime)
    requires IdleMinutesAre(es, sid, now, m1) && IdleMinutesAre(es, sid, now, m2)
    ensures m1 == m2
  {
    var rows1 :| IsOrderingOf(rows1, EventsOf(es, sid, IdleStart, IdleEnd), EventTime) && IdleMinutes(rows1, now) == m1;
    var rows2 :| IsOrderingOf(rows2, EventsOf(es, sid, IdleStart, IdleEnd), EventTime) && IdleMinutes(rows2, now) == m2;
    OrderingUnique(rows1, rows2, EventsOf(es, sid, IdleStart, IdleEnd), EventTime);
  }

  /** `after` is `before` as end_session leaves it when clocking out at `clockOut`, idle measured at `now`. */
  ghost predicate ClosedBy(before: Session, after: Session, clockOut: Timestamp, now: Timestamp, es: seq<Event>) {
    exists sleep, idle ::
      SleepMinutesAre(es, before.id, sleep) && IdleMinutesAre(es, before.id, now, idle)
      && after == before.(clockOut := Some(clockOut),
                          totalWorkMinutes := Some(WorkMinutes(WholeMinutes(clockOut - before.clockIn), sleep, idle)),
                          sleepMinutes := Some(sleep))
  }

  /** Closing keeps the row's identity and sets the clock-out. */
  lemma ClosedByKeepsId(before: Session, after: Session, clockOut: Timestamp, now: Timestamp, es: seq<Event>)
    requires ClosedBy(before, after, clockOut, now, es)
    ensures after.id == before.id && after.accountId == before.accountId && after.clockIn == before.clockIn
    ensures after.clockOut == Some(clockOut)
  {
    var sleep, idle :| SleepMinutesAre(es, before.id, sleep) && IdleMinutesAre(es, before.id, now, idle)
      && after == before.(clockOut := Some(clockOut),
                          totalWorkMinutes := Some(WorkMinutes(WholeMinutes(clockOut - before.clockIn), sleep, idle)),
                          sleepMinutes := Some(sleep));
  }

  /** `after` is the table `before` with its `k`-th row closed as end_session closes it. */
  ghost predicate ClosesRow(before: seq<Session>, after: seq<Session>, k: nat, clockOut: Timestamp, now: Timestamp, es: seq<Event>) {
    k < |before| && |after| == |before| && after == before[k := after[k]]
    && ClosedBy(before[k], after[k], clockOut, now, es)
  }

  /** A closed row is still found under its id. */
  lemma ClosesRowKeepsIndex(before: seq<Session>, after: seq<Session>, k: nat, clockOut: Timestamp, now: Timestamp, es: seq<Event>)
    requires ClosesRow(before, after, k, clockOut, now, es) && DistinctIds(after)
    ensures IndexOf(after, before[k].id) == Some(k)
  {
    ClosedByKeepsId(before[k], after[k], clockOut, now, es);
    IndexOfUnique(after, k);
  }

  /** Closing the same row twice leaves the second clock-out and every other row as it was. */
  lemma ClosesRowTwice(before: seq<Session>, mid: seq<Session>, after: seq<Session>, k: nat,
                       c1: Timestamp, n1: Timestamp, es1: seq<Event>, c2: Timestamp, n2: Timestamp, es2: seq<Event>)
    requires ClosesRow(before, mid, k, c1, n1, es1) && ClosesRow(mid, after, k, c2, n2, es2)
    ensures |after| == |before| && after[k].id == before[k].id && after[k].clockOut == Some(c2)
    ensures forall j :: 0 <= j < |after| && j != k ==> after[j] == before[j]
  {
    ClosedByKeepsId(before[k], mid[k], c1, n1, es1);
    ClosedByKeepsId(mid[k], after[k], c2, n2, es2);
  }

  /** `NULL` or empty MAC shows as 'Unknown' (`mac_address or 'Unknown'`). */
  function MacOrUnknown(mac: Option<string>): (r: string)
    ensures mac.Some? && mac.value != "" ==> r == mac.value
    ensures mac.None? || mac.value == "" ==> r == "Unknown"
  {
    if mac.Some? && mac.value != "" then mac.value else "Unknown"
  }

  /** The key of `ORDER BY clock_in DESC`. */
  function NewestFirst(j: Joined): int {
    -(j.session.clockIn as int)
  }

  /** `ORDER BY s.session_date DESC, s.clock_in DESC`. */
  predicate NewestDateFirst(rows: seq<Joined>) {
    forall i, j :: 0 <= i < j < |rows| ==>
      rows[i].session.sessionDate > rows[j].session.sessionDate
      || (rows[i].session.sessionDate == rows[j].session.sessionDate && rows[i].session.clockIn >= rows[j].session.clockIn)
  }

  /** For rows whose date is the date of their clock-in, newest clock-in first is newest date first. */
  lemma NewestFirstIsNewestDateFirst(rows: seq<Joined>)
    requires SortedBy(rows, NewestFirst)
    requires forall i :: 0 <= i < |rows| ==> rows[i].session.sessionDate == DateOf(rows[i].session.clockIn)
    ensures NewestDateFirst(rows)
  {
    forall i, j | 0 <= i < j < |rows|
      ensures rows[i].session.sessionDate > rows[j].session.sessionDate
           || (rows[i].session.sessionDate == rows[j].session.sessionDate && rows[i].session.clockIn >= rows[j].session.clockIn)
    {
      assert NewestFirst(rows[i]) <= NewestFirst(rows[j]);
      DateOfMonotone(rows[j].session.clockIn, rows[i].session.clockIn);
    }
  }

  // ---------------------------------------------------------------------------
  // The row filters of delete_user

  function SessionIdsOf(ss: seq<Session>, accountId: nat): set<nat> {
    set s | s in ss && s.accountId == accountId :: s.id
  }

  /** `DELETE FROM sleep_events WHERE session_id IN sids` leaves these rows. */
  function EventsOutside(es: seq<Event>, sids: set<nat>): (r: seq<Event>)
    ensures forall e :: e in r <==> e in es && e.sessionId !in sids
    decreases |es|
  {
    if es == [] then []
    else
      var rest := EventsOutside(es[1..], sids);
      assert forall e :: e in es <==> e == es[0] || e in es[1..];
      if es[0].sessionId in sids then rest else [es[0]] + rest
  }

  lemma DistinctIdsTail(ss: seq<Session>)
    requires ss != [] && DistinctIds(ss)
    ensures DistinctIds(ss[1..])
  {
    forall i, j | 0 <= i < j < |ss| - 1 ensures ss[1..][i].id != ss[1..][j].id {
      assert ss[1..][i] == ss[i + 1] && ss[1..][j] == ss[j + 1];
    }
  }

  /** Rows taken from the tail of `ss`, with its head in front, keep distinct ids. */
  lemma DistinctIdsCons(ss: seq<Session>, rest: seq<Session>)
    requires ss != [] && DistinctIds(ss) && DistinctIds(rest)
    requires forall s :: s in rest ==> s in ss[1..]
    ensures DistinctIds([ss[0]] + rest)
  {
    var r := [ss[0]] + rest;
    forall i, j | 0 <= i < j < |r| ensures r[i].id != r[j].id {
      assert r[j] == rest[j - 1];
      if i == 0 {
        assert r[j] in rest;
        var m :| 0 <= m < |ss[1..]| && ss[1..][m] == r[j];
        assert ss[m + 1] == r[j];
      } else {
        assert r[i] == rest[i - 1];
      }
    }
  }

  /** `DELETE FROM sessions WHERE account_id = a` leaves these rows. */
  function SessionsNotOf(ss: seq<Session>, accountId: nat): (r: seq<Session>)
    ensures forall s :: s in r <==> s in ss && s.accountId != accountId
    ensures DistinctIds(ss) ==> DistinctIds(r)
    decreases |ss|
  {
    if ss == [] then []
    else
      var rest := SessionsNotOf(ss[1..], accountId);
      assert forall s :: s in ss <==> s == ss[0] || s in ss[1..];
      if DistinctIds(ss) then
        DistinctIdsTail(ss);
        if ss[0].accountId == accountId then rest
        else
          DistinctIdsCons(ss, rest);
          [ss[0]] + rest
      else if ss[0].accountId == accountId then rest
      else [ss[0]] + rest
  }

  /** `DELETE FROM feedback WHERE account_id = a` leaves these rows. */
  function FeedbackNotOf(fs: seq<Feedback>, accountId: nat): (r: seq<Feedback>)
    ensures forall f :: f in r <==> f in fs && f.accountId != accountId
    decreases |fs|
  {
    if fs == [] then []
    else
      var rest := FeedbackNotOf(fs[1..], accountId);
      assert forall f :: f in fs <==> f == fs[0] || f in fs[1..];
      if fs[0].accountId == accountId then rest else [fs[0]] + rest
  }

  predicate DistinctAccountIds(accounts: seq<Account>) {
    forall i, j :: 0 <= i < j < |accounts| ==> accounts[i].id != accounts[j].id
  }

  lemma DistinctAccountIdsTail(accounts: seq<Account>)
    requires accounts != [] && DistinctAccountIds(accounts)
    ensures DistinctAccountIds(accounts[1..])
  {
    forall i, j | 0 <= i < j < |accounts| - 1 ensures accounts[1..][i].id != accounts[1..][j].id {
      assert accounts[1..][i] == accounts[i + 1] && accounts[1..][j] == accounts[j + 1];
    }
  }

  /** Accounts taken from the tail of `accounts`, with its head in front, keep distinct ids. */
  lemma DistinctAccountIdsCons(accounts: seq<Account>, rest: seq<Account>)
    requires accounts != [] && DistinctAccountIds(accounts) && DistinctAccountIds(rest)
    requires forall a :: a in rest ==> a in accounts[1..]
    ensures DistinctAccountIds([accounts[0]] + rest)
  {
    var r := [accounts[0]] + rest;
    forall i, j | 0 <= i < j < |r| ensures r[i].id != r[j].id {
      assert r[j] == rest[j - 1];
      if i == 0 {
        assert r[j] in rest;
        var m :| 0 <= m < |accounts[1..]| && accounts[1..][m] == r[j];
        assert accounts[m + 1] == r[j];
      } else {
        assert r[i] == rest[i - 1];
      }
    }
  }

  /** `DELETE FROM accounts WHERE id = a` leaves these rows. */
  function AccountsOtherThan(accounts: seq<Account>, id: nat): (r: seq<Account>)
    ensures forall a :: a in r <==> a in accounts && a.id != id
    ensures DistinctAccountIds(accounts) ==> DistinctAccountIds(r)
    decreases |accounts|
  {
    if accounts == [] then []
    else
      var rest := AccountsOtherThan(accounts[1..], id);
      assert forall a :: a in accounts <==> a == accounts[0] || a in accounts[1..];
      if DistinctAccountIds(accounts) then
        DistinctAccountIdsTail(accounts);
        if accounts[0].id == id then rest
        else
          DistinctAccountIdsCons(accounts, rest);
          [accounts[0]] + rest
      else if accounts[0].id == id then rest
      else [accounts[0]] + rest
  }

  /** `from_date <= session_date <= to_date`, keeping the rows' order. */
  function InDateRange(rows: seq<SessionRow>, from: int, to: int): (r: seq<SessionRow>)
    ensures forall x :: x in r <==> x in rows && from <= x.sessionDate <= to
    decreases |rows|
  {
    if rows == [] then []
    else
      var init := InDateRange(rows[..|rows| - 1], from, to);
      var x := rows[|rows| - 1];
      assert forall y :: y in rows <==> y == x || y in rows[..|rows| - 1];
      if from <= x.sessionDate <= to then init + [x] else init
  }

  /** The filtering loop of fetch_sessions_by_date_range_with_idle. */
  method FilterByDate(rows: seq<SessionRow>, from: int, to: int) returns (filtered: seq<SessionRow>)
    ensures filtered == InDateRange(rows, from, to)
  {
    filtered := [];
    var i := 0;
    while i < |rows|
      invariant 0 <= i <= |rows|
      invariant filtered == InDateRange(rows[..i], from, to)
    {
      assert rows[..i + 1][..i] == rows[..i];
      if from <= rows[i].sessionDate <= to {
        filtered := filtered + [rows[i]];
      }
      i := i + 1;
    }
    assert rows[..|rows|] == rows;
  }

  /** `cursor.rowcount` of the account delete is 0 exactly when no account has the id. */
  lemma {:induction false} NothingDeletedIffAbsent(accounts: seq<Account>, id: nat)
    ensures |AccountsOtherThan(accounts, id)| <= |accounts|
    ensures |AccountsOtherThan(accounts, id)| == |accounts| <==> forall a :: a in accounts ==> a.id != id
    decreases |accounts|
  {
    if accounts != [] {
      NothingDeletedIffAbsent(accounts[1..], id);
      assert forall a :: a in accounts <==> a == accounts[0] || a in accounts[1..];
    }
  }

  /**
   * `after` is `before` with the sessions whose ids are in `ids` closed at
   * `now`, and the others left as they were.
   */
  ghost predicate ClosedAmong(before: seq<Session>, after: seq<Session>, ids: seq<nat>, now: Timestamp, es: seq<Event>) {
    |after| == |before|
    && forall k :: 0 <= k < |after| ==>
      after[k].id == before[k].id
      && if before[k].id in ids then ClosedBy(before[k], after[k], now, now, es) else after[k] == before[k]
  }

  /** Closing one more session, the `k`-th, the one the `i`-th id names. */
  lemma ClosedAmongStep(before: seq<Session>, mid: seq<Session>, after: seq<Session>, ids: seq<nat>, i: nat, k: nat,
                        now: Timestamp, es: seq<Event>)
    requires i < |ids| && DistinctIds(before) && ClosedAmong(before, mid, ids[..i], now, es)
    requires k < |before| && before[k].id == ids[i] && ids[i] !in ids[..i]
    requires ClosesRow(mid, after, k, now, now, es)
    ensures ClosedAmong(before, after, ids[..i + 1], now, es)
  {
    assert mid[k] == before[k];
    assert ids[..i + 1] == ids[..i] + [ids[i]];
    forall j | 0 <= j < |after|
      ensures after[j].id == before[j].id
      ensures if before[j].id in ids[..i + 1] then ClosedBy(before[j], after[j], now, now, es) else after[j] == before[j]
    {
      assert before[j].id in ids[..i + 1] <==> before[j].id in ids[..i] || before[j].id == before[k].id;
      if j != k {
        assert after[j] == mid[j];
        assert before[j].id != before[k].id;
      }
    }
  }

  /** The `i`-th open id names a row of the table, an open one, not named before it. */
  lemma OpenIdHasRow(ss: seq<Session>, accountId: nat, i: nat) returns (k: nat)
    requires DistinctIds(ss) && i < |OpenIdsOf(ss, accountId)|
    ensures k < |ss| && ss[k].id == OpenIdsOf(ss, accountId)[i] && IsOpenOf(ss[k], accountId)
    ensures ss[k].id !in OpenIdsOf(ss, accountId)[..i]
  {
    var ids := OpenIdsOf(ss, accountId);
    OpenIdsDistinct(ss, accountId);
    assert ids[i] in ids;
    var s :| s in ss && s.id == ids[i] && IsOpenOf(s, accountId);
    k :| 0 <= k < |ss| && ss[k] == s;
  }

  /** Once every id of OpenIdsOf is closed, the open rows are closed and the others kept. */
  lemma ClosedAllOpen(before: seq<Session>, after: seq<Session>, accountId: nat, now: Timestamp, es: seq<Event>)
    requires DistinctIds(before) && ClosedAmong(before, after, OpenIdsOf(before, accountId), now, es)
    ensures |after| == |before|
    ensures forall k :: 0 <= k < |after| ==>
      if IsOpenOf(before[k], accountId) then ClosedBy(before[k], after[k], now, now, es)
      else after[k] == before[k]
  {
    var ids := OpenIdsOf(before, accountId);
    forall k | 0 <= k < |before| ensures before[k].id in ids <==> IsOpenOf(before[k], accountId) {
      if before[k].id in ids {
        var s :| s in before && s.id == before[k].id && IsOpenOf(s, accountId);
        var m :| 0 <= m < |before| && before[m] == s;
        assert m == k;
      }
    }
  }

  /** Replacing a row by one with the same id, clock-in and date keeps the table's invariants. */
  lemma ReplaceKeepsIds(ss: seq<Session>, k: nat, x: Session)
    requires k < |ss| && x.id == ss[k].id && x.clockIn == ss[k].clockIn && x.sessionDate == ss[k].sessionDate
    ensures DistinctIds(ss) ==> DistinctIds(ss[k := x])
    ensures forall y :: y in ss[k := x] ==> (y == x || y in ss)
    ensures forall y :: y in ss[k := x] ==> exists z :: z in ss && z.id == y.id && z.clockIn == y.clockIn && z.sessionDate == y.sessionDate
  {
    forall y | y in ss[k := x]
      ensures exists z :: z in ss && z.id == y.id && z.clockIn == y.clockIn && z.sessionDate == y.sessionDate
    {
      if y == x {
        assert ss[k] in ss;
      } else {
        var i :| 0 <= i < |ss[k := x]| && ss[k := x][i] == y;
        assert ss[i] == y;
      }
    }
  }

  // ---------------------------------------------------------------------------
  // The store

  class SessionStore {
    var sessions: seq<Session>
    var events: seq<Event>
    var accounts: seq<Account>
    var feedback: seq<Feedback>
    /** The next value of the sessions table's identity column. */
    var nextSessionId: nat
    /** Whether get_connection() succeeds. */
    const connected: bool

    ghost predicate Valid()
      reads this
    {
      nextSessionId >= 1
      && (forall s :: s in sessions ==> 1 <= s.id < nextSessionId && s.sessionDate == DateOf(s.clockIn))
      && DistinctIds(sessions)
      && DistinctAccountIds(accounts)
    }

    constructor (accounts0: seq<Account>, feedback0: seq<Feedback>, connected0: bool)
      requires DistinctAccountIds(accounts0)
      ensures Valid()
      ensures sessions == [] && events == [] && accounts == accounts0 && feedback == feedback0
      ensures nextSessionId == 1 && connected == connected0
    {
      sessions, events, accounts, feedback := [], [], accounts0, feedback0;
      nextSessionId := 1;
      connected := connected0;
    }

    /**
     * start_session: a new open session dated by its clock-in, recording the
     * given MAC, or the machine's (`detectedMac`, what get_mac_address() returns)
     * when none is given. No check is made for an open session already there.
     */
    method StartSession(accountId: nat, clockIn: Timestamp, mac: Option<string>, detectedMac: string)
      returns (r: Result<nat, StoreError>)
      requires Valid()
      modifies this
      ensures Valid()
      ensures events == old(events) && accounts == old(accounts) && feedback == old(feedback)
      ensures !connected ==> r == Failure(Unavailable) && sessions == old(sessions) && nextSessionId == old(nextSessionId)
      ensures connected ==> (r == Success(old(nextSessionId)) && nextSessionId == old(nextSessionId) + 1
        && sessions == old(sessions) + [Session(r.value, accountId, clockIn, None, DateOf(clockIn), Some(mac.GetOr(detectedMac)), None, None)])
      ensures r.Success? ==> forall s :: s in old(sessions) ==> s.id != r.value
    {
      if !connected {
        return Failure(Unavailable);
      }
      var id := nextSessionId;
      var row := Session(id, accountId, clockIn, None, DateOf(clockIn), Some(mac.GetOr(detectedMac)), None, None);
      assert forall s :: s in sessions + [row] <==> s in sessions || s == row;
      sessions := sessions + [row];
      nextSessionId := nextSessionId + 1;
      r := Success(id);
    }

    /** log_sleep_event: appends a row stamped `now`; raises when the database is unreachable. */
    method LogSleepEvent(accountId: nat, sessionId: nat, kind: EventKind, now: Timestamp, source: string)
      returns (r: Result<(), StoreError>)
      requires Valid()
      modifies this`events
      ensures Valid()
      ensures !connected ==> r == Failure(Unavailable) && events == old(events)
      ensures connected ==> r == Success(()) && events == old(events) + [Event(accountId, sessionId, kind, now, source)]
    {
      if !connected {
        return Failure(Unavailable);
      }
      events := events + [Event(accountId, sessionId, kind, now, source)];
      r := Success(());
    }

    /** log_idle_event: appends a row with source 'idle'; reports failure as False. */
    method LogIdleEvent(accountId: nat, sessionId: nat, kind: EventKind, now: Timestamp) returns (ok: bool)
      requires Valid()
      modifies this`events
      ensures Valid()
      ensures ok == connected
      ensures events == old(events) + (if ok then [Event(accountId, sessionId, kind, now, "idle")] else [])
    {
      ok := connected;
      if ok {
        events := events + [Event(accountId, sessionId, kind, now, "idle")];
      }
    }

    /** calculate_sleep_minutes_for_session. */
    method CalculateSleepMinutes(sid: nat) returns (m: int)
      ensures !connected ==> m == 0
      ensures connected ==> SleepMinutesAre(events, sid, m)
      ensures m >= 0
    {
      if !connected {
        return 0;
      }
      var rows := SortBy(EventsOf(events, sid, Sleep, Resume), EventTime);
      var seconds, pending := FoldPairs(rows, Sleep, Resume);
      m := WholeMinutes(seconds);
      SleepMinutesNonNegative(rows);
      assert IsOrderingOf(rows, EventsOf(events, sid, Sleep, Resume), EventTime) && SleepMinutes(rows) == m;
    }

    /** calculate_idle_minutes_simple, with `now` for datetime.now(). */
    method CalculateIdleMinutes(sid: nat, now: Timestamp) returns (m: int)
      ensures !connected ==> m == 0
      ensures connected ==> IdleMinutesAre(events, sid, now, m)
      ensures NotAfter(events, now) ==> m >= 0
    {
      if !connected {
        return 0;
      }
      var rows := SortBy(EventsOf(events, sid, IdleStart, IdleEnd), EventTime);
      var seconds, pending := FoldPairs(rows, IdleStart, IdleEnd);
      if pending.Some? {
        seconds := seconds + (now - pending.value);
      }
      m := WholeMinutes(seconds);
      assert IsOrderingOf(rows, EventsOf(events, sid, IdleStart, IdleEnd), EventTime) && IdleMinutes(rows, now) == m;
      if NotAfter(events, now) {
        forall e | e in rows ensures e.time <= now {
          assert e in multiset(rows);
        }
        IdleMinutesNonNegative(rows, now);
      }
    }

    /** `SELECT clock_out FROM sessions WHERE id = ?` finds a row, and it is NULL. */
    predicate SessionIsOpen(sid: nat)
      reads this
    {
      match IndexOf(sessions, sid)
      case Some(k) => sessions[k].clockOut.None?
      case None => false
    }

    /** The latest idle row of the session may be of this kind. */
    ghost predicate LatestIdleKindIs(sid: nat, kind: EventKind)
      reads this
    {
      exists e :: IsLatest(e, EventsOf(events, sid, IdleStart, IdleEnd)) && e.kind == kind
    }

    /** is_session_currently_idle_simple. */
    function IsCurrentlyIdle(sid: nat): (r: bool)
      reads this
      ensures r ==> connected && SessionIsOpen(sid) && LatestIdleKindIs(sid, IdleStart)
      ensures !r && connected && SessionIsOpen(sid) && EventsOf(events, sid, IdleStart, IdleEnd) != []
        ==> LatestIdleKindIs(sid, IdleEnd)
    {
      connected && SessionIsOpen(sid)
      && var rows := EventsOf(events, sid, IdleStart, IdleEnd);
         rows != [] && Latest(rows).kind == IdleStart
    }

    /** get_current_idle_duration_minutes: whole minutes since the latest idle start. */
    function CurrentIdleDurationMinutes(sid: nat, now: Timestamp): (r: int)
      reads this
      ensures !IsCurrentlyIdle(sid) ==> r == 0
      ensures IsCurrentlyIdle(sid) ==>
        exists e :: IsLatest(e, EventsOf(events, sid, IdleStart, IdleStart)) && r == WholeMinutes(now - e.time)
      ensures NotAfter(events, now) ==> r >= 0
    {
      if !IsCurrentlyIdle(sid) then 0
      else
        var starts := EventsOf(events, sid, IdleStart, IdleStart);
        var rows := EventsOf(events, sid, IdleStart, IdleEnd);
        assert Latest(rows) in starts;
        WholeMinutes(now - Latest(starts).time)
    }

    /**
     * end_session: stores the clock-out, the work minutes and the sleep minutes
     * (idle minutes are computed but not stored) and returns the work minutes.
     * A session that is already closed is closed again.
     */
    method EndSession(sid: nat, clockOut: Timestamp, now: Timestamp) returns (r: Result<int, StoreError>)
      requires Valid()
      modifies this`sessions
      ensures Valid()
      ensures !connected ==> r == Failure(Unavailable) && sessions == old(sessions)
      ensures connected && IndexOf(old(sessions), sid).None? ==> r == Failure(SessionNotFound) && sessions == old(sessions)
      ensures connected && IndexOf(old(sessions), sid).Some? ==>
        var k := IndexOf(old(sessions), sid).value;
        r.Success? && r.value >= 0 && ClosesRow(old(sessions), sessions, k, clockOut, now, events)
        && sessions[k].totalWorkMinutes == Some(r.value)
    {
      if !connected {
        return Failure(Unavailable);
      }
      var sleep := CalculateSleepMinutes(sid);
      var idle := CalculateIdleMinutes(sid, now);
      var k := IndexOf(sessions, sid);
      if k.None? {
        return Failure(SessionNotFound);
      }
      var s := sessions[k.value];
      var work := WorkMinutes(WholeMinutes(clockOut - s.clockIn), sleep, idle);
      var closed := s.(clockOut := Some(clockOut), totalWorkMinutes := Some(work), sleepMinutes := Some(sleep));
      assert ClosedBy(s, closed, clockOut, now, events) by {
        assert SleepMinutesAre(events, s.id, sleep) && IdleMinutesAre(events, s.id, now, idle);
      }
      ReplaceKeepsIds(sessions, k.value, closed);
      sessions := sessions[k.value := closed];
      r := Success(work);
    }

    /** `st` is the status dictionary get_active_sessions_with_status builds for `j` at `now`. */
    ghost predicate DescribesOpenSession(st: SessionStatus, j: Joined, now: Timestamp)
      reads this
    {
      var s := j.session;
      st.sessionId == s.id && st.accountId == s.accountId && st.username == j.username && st.clockIn == s.clockIn
      && st.mac == MacOrUnknown(s.deviceMac)
      && SleepMinutesAre(events, s.id, st.sleepMinutes) && IdleMinutesAre(events, s.id, now, st.idleMinutes)
      && st.isIdle == IsCurrentlyIdle(s.id)
      && st.currentIdleDuration == (if st.isIdle then CurrentIdleDurationMinutes(s.id, now) else 0)
      && st.totalMinutes == WholeMinutes(now - s.clockIn)
      && st.workMinutes == WorkMinutes(st.totalMinutes, st.sleepMinutes, st.idleMinutes)
    }

    /** The status of one open session: the body of get_active_sessions_with_status's loop. */
    method DescribeOpenSession(j: Joined, now: Timestamp) returns (st: SessionStatus)
      requires connected
      ensures DescribesOpenSession(st, j, now)
      ensures st.workMinutes >= 0 && st.sleepMinutes >= 0
    {
      var s := j.session;
      var sleep := CalculateSleepMinutes(s.id);
      var idle := CalculateIdleMinutes(s.id, now);
      var isIdle := IsCurrentlyIdle(s.id);
      var duration := if isIdle then CurrentIdleDurationMinutes(s.id, now) else 0;
      var total := WholeMinutes(now - s.clockIn);
      st := SessionStatus(s.id, s.accountId, j.username, s.clockIn, MacOrUnknown(s.deviceMac),
                          isIdle, sleep, idle, WorkMinutes(total, sleep, idle), total, duration);
    }

    /** `rows` describe the open sessions `o` one by one, none with negative work or sleep minutes. */
    ghost predicate DescribesAll(rows: seq<SessionStatus>, o: seq<Joined>, now: Timestamp)
      reads this
      decreases |o|
    {
      |rows| == |o|
      && (o != [] ==>
            DescribesAll(rows[..|o| - 1], o[..|o| - 1], now) && DescribesOpenSession(rows[|o| - 1], o[|o| - 1], now)
            && rows[|o| - 1].workMinutes >= 0 && rows[|o| - 1].sleepMinutes >= 0)
    }

    lemma DescribesAllAppend(rows: seq<SessionStatus>, o: seq<Joined>, st: SessionStatus, j: Joined, now: Timestamp)
      requires DescribesAll(rows, o, now) && DescribesOpenSession(st, j, now)
      requires st.workMinutes >= 0 && st.sleepMinutes >= 0
      ensures DescribesAll(rows + [st], o + [j], now)
    {
      assert (rows + [st])[..|o|] == rows && (o + [j])[..|o|] == o;
    }

    /** Row `i` describes session `i`. */
    lemma {:induction false} DescribesAllAt(rows: seq<SessionStatus>, o: seq<Joined>, now: Timestamp, i: nat)
      requires DescribesAll(rows, o, now) && i < |o|
      ensures DescribesOpenSession(rows[i], o[i], now)
      ensures rows[i].workMinutes >= 0 && rows[i].sleepMinutes >= 0
      decreases |o|
    {
      if i < |o| - 1 {
        DescribesAllAt(rows[..|o| - 1], o[..|o| - 1], now, i);
      }
    }

    /** The loop of get_active_sessions_with_status over the fetched open sessions. */
    method DescribeOpenSessions(open: seq<Joined>, now: Timestamp) returns (rows: seq<SessionStatus>)
      requires connected
      ensures DescribesAll(rows, open, now)
    {
      rows := [];
      var i := 0;
      while i < |open|
        invariant 0 <= i <= |open| && DescribesAll(rows, open[..i], now)
      {
        var st := DescribeOpenSession(open[i], now);
        DescribesAllAppend(rows, open[..i], st, open[i], now);
        PrefixStep(open, i);
        rows := rows + [st];
        i := i + 1;
      }
      assert open[..i] == open;
    }

    /** get_active_sessions_with_status, with `now` for datetime.now(). */
    method ActiveSessionsWithStatus(now: Timestamp) returns (rows: seq<SessionStatus>)
      ensures !connected ==> rows == []
      ensures connected ==> exists o :: IsOrderingOf(o, JoinAccounts(sessions, accounts, true), NewestFirst) && DescribesAll(rows, o, now)
      ensures forall i :: 0 <= i < |rows| ==> rows[i].workMinutes >= 0 && rows[i].sleepMinutes >= 0
    {
      rows := [];
      if !connected {
        return;
      }
      var open := SortBy(JoinAccounts(sessions, accounts, true), NewestFirst);
      rows := DescribeOpenSessions(open, now);
      forall i | 0 <= i < |rows| ensures rows[i].workMinutes >= 0 && rows[i].sleepMinutes >= 0 {
        DescribesAllAt(rows, open, now, i);
      }
    }

    /** `row` is the tuple fetch_all_sessions_with_idle builds for `j` at `now`. */
    ghost predicate ListsSession(row: SessionRow, j: Joined, now: Timestamp)
      reads this
    {
      var s := j.session;
      row.mac == s.deviceMac.GetOr("Unknown") && row.username == j.username
      && row.clockIn == s.clockIn && row.clockOut == s.clockOut && row.sessionDate == s.sessionDate
      && row.workMinutes == Some(s.totalWorkMinutes.GetOr(0))
      && row.sleepMinutes.Some?
      && (if s.clockOut.None? then SleepMinutesAre(events, s.id, row.sleepMinutes.value)
          else row.sleepMinutes.value == s.sleepMinutes.GetOr(0))
      && row.idleMinutes.Some? && IdleMinutesAre(events, s.id, now, row.idleMinutes.value)
      && row.sessionId == Some(s.id) && row.accountId == Some(s.accountId)
    }

    /** `rows` is what fetch_all_sessions_with_idle may return at `now`. */
    ghost predicate IsSessionListing(rows: seq<SessionRow>, now: Timestamp)
      reads this
    {
      if !connected then rows == []
      else exists o ::
        multiset(o) == multiset(JoinAccounts(sessions, accounts, false)) && NewestDateFirst(o) && |rows| == |o|
        && forall i :: 0 <= i < |o| ==> ListsSession(rows[i], o[i], now)
    }

    /** One row of fetch_all_sessions_with_idle: the stored sleep minutes of a closed session, fresh ones of an open one. */
    method ListSession(j: Joined, now: Timestamp) returns (row: SessionRow)
      requires connected
      ensures ListsSession(row, j, now)
    {
      var s := j.session;
      var sleep := s.sleepMinutes.GetOr(0);
      if s.clockOut.None? {
        sleep := CalculateSleepMinutes(s.id);
      }
      var idle := CalculateIdleMinutes(s.id, now);
      row := SessionRow(s.deviceMac.GetOr("Unknown"), j.username, s.clockIn, s.clockOut, s.sessionDate,
                        Some(s.totalWorkMinutes.GetOr(0)), Some(sleep), Some(idle), Some(s.id), Some(s.accountId));
    }

    /** fetch_all_sessions_with_idle: every session with its account, newest first. */
    method FetchAllSessionsWithIdle(now: Timestamp) returns (rows: seq<SessionRow>)
      requires Valid()
      ensures IsSessionListing(rows, now)
    {
      rows := [];
      if !connected {
        return;
      }
      var all := SortBy(JoinAccounts(sessions, accounts, false), NewestFirst);
      forall i | 0 <= i < |all| ensures all[i].session.sessionDate == DateOf(all[i].session.clockIn) {
        assert all[i] in multiset(all);
      }
      NewestFirstIsNewestDateFirst(all);
      var i := 0;
      while i < |all|
        invariant 0 <= i <= |all| && |rows| == i
        invariant forall k :: 0 <= k < i ==> ListsSession(rows[k], all[k], now)
      {
        var row := ListSession(all[i], now);
        rows := rows + [row];
        i := i + 1;
      }
    }

    /** fetch_sessions_by_date_range_with_idle: the listing, filtered to dates from `from` to `to`. */
    method FetchSessionsByDateRangeWithIdle(from: int, to: int, now: Timestamp) returns (rows: seq<SessionRow>)
      requires Valid()
      ensures exists all :: IsSessionListing(all, now) && rows == InDateRange(all, from, to)
    {
      var all := FetchAllSessionsWithIdle(now);
      rows := FilterByDate(all, from, to);
    }

    /** get_active_session: the account's open session with the latest clock-in, if any. */
    function GetActiveSession(accountId: nat): (r: Result<Option<(nat, Timestamp)>, StoreError>)
      reads this
      ensures r.Failure? <==> !connected
      ensures r == Success(None) <==> connected && forall s :: s in sessions ==> !IsOpenOf(s, accountId)
      ensures r.Success? && r.value.Some? ==>
        (exists s :: s in sessions && IsOpenOf(s, accountId) && r.value.value == (s.id, s.clockIn)
          && forall t :: t in sessions && IsOpenOf(t, accountId) ==> t.clockIn <= s.clockIn)
    {
      if !connected then Failure(Unavailable)
      else
        match LatestOpen(sessions, accountId)
        case None => Success(None)
        case Some(s) => Success(Some((s.id, s.clockIn)))
    }

    /** One round of auto_clock_out_all_sessions's loop: ends the `i`-th open session of `start`. */
    method CloseNextOpen(ghost start: seq<Session>, accountId: nat, ids: seq<nat>, i: nat, now: Timestamp)
      requires Valid() && connected && DistinctIds(start) && ids == OpenIdsOf(start, accountId) && i < |ids|
      requires ClosedAmong(start, sessions, ids[..i], now, events)
      modifies this`sessions
      ensures Valid()
      ensures ClosedAmong(start, sessions, ids[..i + 1], now, events)
    {
      var sid := ids[i];
      ghost var k := OpenIdHasRow(start, accountId, i);
      assert sessions[k].id == sid;
      IndexOfUnique(sessions, k);
      ghost var mid := sessions;
      var _ := EndSession(sid, now, now);
      ClosedAmongStep(start, mid, sessions, ids, i, k, now, events);
    }

    /**
     * auto_clock_out_all_sessions: ends every open session of the account
     * with the one clock-out `now`, and returns how many there were.
     */
    method AutoClockOutAllSessions(accountId: nat, now: Timestamp) returns (r: Result<nat, StoreError>)
      requires Valid()
      modifies this`sessions
      ensures Valid()
      ensures !connected ==> r == Failure(Unavailable) && sessions == old(sessions)
      ensures connected ==> r == Success(|OpenIdsOf(old(sessions), accountId)|) && |sessions| == |old(sessions)|
      ensures connected ==> forall k :: 0 <= k < |sessions| ==>
        if IsOpenOf(old(sessions)[k], accountId) then ClosedBy(old(sessions)[k], sessions[k], now, now, events)
        else sessions[k] == old(sessions)[k]
      ensures events == old(events)
    {
      if !connected {
        return Failure(Unavailable);
      }
      var ids := OpenIdsOf(sessions, accountId);
      ghost var start := sessions;
      var i := 0;
      while i < |ids|
        invariant 0 <= i <= |ids| && Valid()
        invariant ClosedAmong(start, sessions, ids[..i], now, events)
      {
        CloseNextOpen(start, accountId, ids, i, now);
        i := i + 1;
      }
      assert ids[..|ids|] == ids;
      ClosedAllOpen(start, sessions, accountId, now, events);
      r := Success(|ids|);
    }

    /**
     * delete_user: removes the events of the account's sessions, its sessions,
     * its feedback and its account row. When no account row is deleted the
     * transaction is rolled back and the error raised.
     */
    method DeleteUser(userId: nat) returns (r: Result<(), StoreError>)
      requires Valid()
      modifies this
      ensures Valid() && nextSessionId == old(nextSessionId)
      ensures !connected ==> r == Failure(Unavailable)
      ensures connected && (forall a :: a in old(accounts) ==> a.id != userId) ==> r == Failure(UserNotFound)
      ensures r.Failure? ==> sessions == old(sessions) && events == old(events) && accounts == old(accounts) && feedback == old(feedback)
      ensures connected && (exists a :: a in old(accounts) && a.id == userId) ==>
        r == Success(())
        && events == EventsOutside(old(events), SessionIdsOf(old(sessions), userId))
        && sessions == SessionsNotOf(old(sessions), userId)
        && feedback == FeedbackNotOf(old(feedback), userId)
        && accounts == AccountsOtherThan(old(accounts), userId)
    {
      if !connected {
        return Failure(Unavailable);
      }
      var keep := AccountsOtherThan(accounts, userId);
      NothingDeletedIffAbsent(accounts, userId);
      if |keep| == |accounts| {
        return Failure(UserNotFound);
      }
      events := EventsOutside(events, SessionIdsOf(sessions, userId));
      sessions := SessionsNotOf(sessions, userId);
      feedback := FeedbackNotOf(feedback, userId);
      accounts := keep;
      r := Success(());
    }
  }
}
