/**
 * The two folds at the heart of the accounting: pairing `sleep` with `resume`
 * events (database/queries.py, calculate_sleep_minutes_for_session) and
 * `idle_start` with `idle_end` events (calculate_idle_minutes_simple) over a
 * session's rows in event-time order.
 *
 * Both loops keep an accumulator and an optional pending start. An opening
 * event overwrites the pending start, a closing event adds the interval since
 * the pending start and clears it, and a closing event with nothing pending
 * is ignored. `Step`/`Fold` state that loop as a left fold; `FoldPairs` is the
 * loop itself; `AdjacentPairSeconds`/`PendingStart` are an independent reading:
 * keep only the two pairing kinds, and an interval is counted exactly where
 * an opening event is immediately followed by a closing one.
 *
 * The source adds fractional minutes and truncates once at the end; the model
 * adds whole seconds and truncates once, which is the same number up to
 * floating-point rounding.
 */
module EventFold {
  import opened Wrappers
  import opened Calendar
  import opened Sorting

  datatype EventKind = Sleep | Resume | IdleStart | IdleEnd

  /** A row of the sleep_events table. */
  datatype Event = Event(accountId: nat, sessionId: nat, kind: EventKind, time: Timestamp, source: string)

  /** The `ORDER BY event_time` key. */
  function EventTime(e: Event): int {
    e.time
  }

  /** The loop's variables: the accumulated seconds and the pending start. */
  datatype FoldState = FoldState(seconds: int, pending: Option<Timestamp>)

  /** One iteration of the loop body. */
  function Step(st: FoldState, e: Event, open: EventKind, close: EventKind): FoldState {
    if e.kind == open then FoldState(st.seconds, Some(e.time))
    else if e.kind == close && st.pending.Some? then FoldState(st.seconds + (e.time - st.pending.value), None)
    else st
  }

  /** The loop run over `rows` from the start. */
  function Fold(rows: seq<Event>, open: EventKind, close: EventKind): FoldState
    decreases |rows|
  {
    if rows == [] then FoldState(0, None)
    else Step(Fold(rows[..|rows| - 1], open, close), rows[|rows| - 1], open, close)
  }

  lemma FoldAppend(rows: seq<Event>, e: Event, open: EventKind, close: EventKind)
    ensures Fold(rows + [e], open, close) == Step(Fold(rows, open, close), e, open, close)
  {
    assert (rows + [e])[..|rows|] == rows;
  }

  /** The rows of the two pairing kinds, in their order. */
  function Pairing(rows: seq<Event>, open: EventKind, close: EventKind): (p: seq<Event>)
    ensures |p| <= |rows|
    ensures forall x :: x in p ==> x in rows && (x.kind == open || x.kind == close)
    decreases |rows|
  {
    if rows == [] then []
    else
      var e := rows[|rows| - 1];
      var p := Pairing(rows[..|rows| - 1], open, close);
      if e.kind == open || e.kind == close then p + [e] else p
  }

  /** Sum of `close.time - open.time` over every opening row directly followed by a closing row. */
  function AdjacentPairSeconds(p: seq<Event>, open: EventKind, close: EventKind): int
    decreases |p|
  {
    if |p| < 2 then 0
    else
      var a, b := p[|p| - 2], p[|p| - 1];
      AdjacentPairSeconds(p[..|p| - 1], open, close)
      + (if a.kind == open && b.kind == close then b.time - a.time else 0)
  }

  /** The start still open at the end: the last pairing row, when it opens. */
  function PendingStart(p: seq<Event>, open: EventKind): Option<Timestamp> {
    if p != [] && p[|p| - 1].kind == open then Some(p[|p| - 1].time) else None
  }

  /** Seconds in closed intervals. */
  function ClosedSeconds(rows: seq<Event>, open: EventKind, close: EventKind): int {
    AdjacentPairSeconds(Pairing(rows, open, close), open, close)
  }

  lemma AdjacentAppend(p: seq<Event>, e: Event, open: EventKind, close: EventKind)
    ensures AdjacentPairSeconds(p + [e], open, close)
         == AdjacentPairSeconds(p, open, close)
            + (if p != [] && p[|p| - 1].kind == open && e.kind == close then e.time - p[|p| - 1].time else 0)
  {
    var q := p + [e];
    assert q[..|q| - 1] == p;
    if p != [] {
      assert q[|q| - 2] == p[|p| - 1];
    }
  }

  /** The loop and the reference reading agree. */
  lemma {:induction false} FoldIsPairing(rows: seq<Event>, open: EventKind, close: EventKind)
    requires open != close
    ensures Fold(rows, open, close).seconds == ClosedSeconds(rows, open, close)
    ensures Fold(rows, open, close).pending == PendingStart(Pairing(rows, open, close), open)
    decreases |rows|
  {
    if rows != [] {
      var init := rows[..|rows| - 1];
      FoldIsPairing(init, open, close);
      var p := Pairing(init, open, close);
      var e := rows[|rows| - 1];
      var st := Fold(init, open, close);
      assert Fold(rows, open, close) == Step(st, e, open, close);
      if e.kind == open || e.kind == close {
        assert Pairing(rows, open, close) == p + [e];
        AdjacentAppend(p, e, open, close);
      } else {
        assert Pairing(rows, open, close) == p;
      }
    }
  }

  /**
   * The loop of calculate_sleep_minutes_for_session / calculate_idle_minutes_simple
   * (without the final truncation), for the kinds `open` and `close`.
   */
  method FoldPairs(rows: seq<Event>, open: EventKind, close: EventKind) returns (seconds: int, pending: Option<Timestamp>)
    requires open != close
    ensures seconds == ClosedSeconds(rows, open, close)
    ensures pending == PendingStart(Pairing(rows, open, close), open)
  {
    seconds, pending := 0, None;
    var i := 0;
    while i < |rows|
      invariant 0 <= i <= |rows|
      invariant FoldState(seconds, pending) == Fold(rows[..i], open, close)
    {
      var e := rows[i];
      assert rows[..i + 1] == rows[..i] + [e];
      FoldAppend(rows[..i], e, open, close);
      if e.kind == open {
        pending := Some(e.time);
      } else if e.kind == close && pending.Some? {
        seconds := seconds + (e.time - pending.value);
        pending := None;
      }
      i := i + 1;
    }
    assert rows[..|rows|] == rows;
    FoldIsPairing(rows, open, close);
  }

  /** Sleep minutes of a session whose sleep/resume rows, in time order, are `rows`. */
  function SleepMinutes(rows: seq<Event>): int {
    WholeMinutes(ClosedSeconds(rows, Sleep, Resume))
  }

  /** Idle seconds: closed idle intervals plus the interval still open at `now`. */
  function IdleSeconds(rows: seq<Event>, now: Timestamp): int {
    ClosedSeconds(rows, IdleStart, IdleEnd)
    + match PendingStart(Pairing(rows, IdleStart, IdleEnd), IdleStart)
      case Some(t) => now - t
      case None => 0
  }

  function IdleMinutes(rows: seq<Event>, now: Timestamp): int {
    WholeMinutes(IdleSeconds(rows, now))
  }

  /** `max(0, total - sleep - idle)`. */
  function WorkMinutes(totalMinutes: int, sleepMinutes: int, idleMinutes: int): (w: int)
    ensures w >= 0 && w >= totalMinutes - sleepMinutes - idleMinutes
    ensures w == 0 || w == totalMinutes - sleepMinutes - idleMinutes
  {
    if totalMinutes - sleepMinutes - idleMinutes > 0 then totalMinutes - sleepMinutes - idleMinutes else 0
  }

  // ---------------------------------------------------------------------------
  // Pairing semantics

  lemma {:induction false} PairingConcat(a: seq<Event>, b: seq<Event>, open: EventKind, close: EventKind)
    ensures Pairing(a + b, open, close) == Pairing(a, open, close) + Pairing(b, open, close)
    decreases |b|
  {
    if b == [] {
      assert a + b == a;
    } else {
      var b' := b[..|b| - 1];
      assert (a + b)[..|a + b| - 1] == a + b';
      PairingConcat(a, b', open, close);
    }
  }

  /** An event of a third kind changes neither fold, wherever it is inserted. */
  lemma OtherKindIgnored(a: seq<Event>, e: Event, b: seq<Event>, open: EventKind, close: EventKind)
    requires open != close && e.kind != open && e.kind != close
    ensures Fold(a + [e] + b, open, close) == Fold(a + b, open, close)
  {
    PairingConcat(a + [e], b, open, close);
    PairingConcat(a, [e], open, close);
    PairingConcat(a, b, open, close);
    assert Pairing([e], open, close) == [];
    FoldIsPairing(a + [e] + b, open, close);
    FoldIsPairing(a + b, open, close);
  }

  /** Adding a start then an end adds exactly their distance, whatever was pending before. */
  lemma AppendPair(rows: seq<Event>, s: Event, r: Event, open: EventKind, close: EventKind)
    requires open != close && s.kind == open && r.kind == close
    ensures Fold(rows + [s, r], open, close) == FoldState(Fold(rows, open, close).seconds + (r.time - s.time), None)
  {
    assert rows + [s, r] == (rows + [s]) + [r];
    FoldAppend(rows, s, open, close);
    FoldAppend(rows + [s], r, open, close);
  }

  /** A second start before any end overwrites the pending start. */
  lemma LaterStartOverwrites(rows: seq<Event>, s1: Event, s2: Event, open: EventKind, close: EventKind)
    requires s1.kind == open && s2.kind == open
    ensures Fold(rows + [s1, s2], open, close) == FoldState(Fold(rows, open, close).seconds, Some(s2.time))
  {
    assert rows + [s1, s2] == (rows + [s1]) + [s2];
    FoldAppend(rows, s1, open, close);
    FoldAppend(rows + [s1], s2, open, close);
  }

  /** An end with nothing pending is ignored. */
  lemma OrphanEndIgnored(rows: seq<Event>, r: Event, open: EventKind, close: EventKind)
    requires open != close && r.kind == close && Fold(rows, open, close).pending == None
    ensures Fold(rows + [r], open, close) == Fold(rows, open, close)
  {
    FoldAppend(rows, r, open, close);
  }

  /** A trailing start adds no closed seconds; it only becomes the pending start. */
  lemma TrailingStartAddsNothing(rows: seq<Event>, s: Event, open: EventKind, close: EventKind)
    requires s.kind == open
    ensures Fold(rows + [s], open, close) == FoldState(Fold(rows, open, close).seconds, Some(s.time))
  {
    FoldAppend(rows, s, open, close);
  }

  // ---------------------------------------------------------------------------
  // Non-negativity for rows in time order

  lemma {:induction false} PairingSorted(rows: seq<Event>, open: EventKind, close: EventKind)
    requires SortedBy(rows, EventTime)
    ensures SortedBy(Pairing(rows, open, close), EventTime)
    decreases |rows|
  {
    if rows != [] {
      var init := rows[..|rows| - 1];
      var e := rows[|rows| - 1];
      assert SortedBy(init, EventTime);
      PairingSorted(init, open, close);
      var p := Pairing(init, open, close);
      if e.kind == open || e.kind == close {
        forall x | x in p ensures x.time <= e.time {
          var k :| 0 <= k < |init| && init[k] == x;
          assert rows[k] == x;
        }
        var q := p + [e];
        forall i, j | 0 <= i < j < |q| ensures q[i].time <= q[j].time {
          if j < |p| {
            assert q[i] == p[i] && q[j] == p[j];
          } else {
            assert q[i] == p[i] && p[i] in p;
          }
        }
      }
    }
  }

  lemma {:induction false} AdjacentNonNegative(p: seq<Event>, open: EventKind, close: EventKind)
    requires SortedBy(p, EventTime)
    ensures AdjacentPairSeconds(p, open, close) >= 0
    decreases |p|
  {
    if |p| >= 2 {
      assert SortedBy(p[..|p| - 1], EventTime);
      AdjacentNonNegative(p[..|p| - 1], open, close);
      assert p[|p| - 2].time <= p[|p| - 1].time;
    }
  }

  /** With rows in time order, closed intervals never sum below zero. */
  lemma ClosedSecondsNonNegative(rows: seq<Event>, open: EventKind, close: EventKind)
    requires SortedBy(rows, EventTime)
    ensures ClosedSeconds(rows, open, close) >= 0
  {
    PairingSorted(rows, open, close);
    AdjacentNonNegative(Pairing(rows, open, close), open, close);
  }

  lemma SleepMinutesNonNegative(rows: seq<Event>)
    requires SortedBy(rows, EventTime)
    ensures SleepMinutes(rows) >= 0
  {
    ClosedSecondsNonNegative(rows, Sleep, Resume);
  }

  /** With rows in time order and `now` not before any of them, idle time is not negative. */
  lemma IdleMinutesNonNegative(rows: seq<Event>, now: Timestamp)
    requires SortedBy(rows, EventTime)
    requires forall e :: e in rows ==> e.time <= now
    ensures IdleSeconds(rows, now) >= 0 && IdleMinutes(rows, now) >= 0
  {
    ClosedSecondsNonNegative(rows, IdleStart, IdleEnd);
    var p := Pairing(rows, IdleStart, IdleEnd);
    if p != [] {
      assert p[|p| - 1] in p;
    }
  }

  // ---------------------------------------------------------------------------
  // Worked examples

  function Ev(kind: EventKind, time: Timestamp): Event {
    Event(1, 1, kind, time, "system")
  }

  /** Two sleeps, each resumed, count both intervals. */
  lemma TwoSleeps()
    ensures SleepMinutes([Ev(Sleep, 600), Ev(Resume, 1500), Ev(Sleep, 3600), Ev(Resume, 4200)]) == 25
  {
    var rows := [Ev(Sleep, 600), Ev(Resume, 1500), Ev(Sleep, 3600), Ev(Resume, 4200)];
    assert rows == [Ev(Sleep, 600), Ev(Resume, 1500)] + [Ev(Sleep, 3600), Ev(Resume, 4200)];
    AppendPair([], Ev(Sleep, 600), Ev(Resume, 1500), Sleep, Resume);
    assert [] + [Ev(Sleep, 600), Ev(Resume, 1500)] == [Ev(Sleep, 600), Ev(Resume, 1500)];
    AppendPair([Ev(Sleep, 600), Ev(Resume, 1500)], Ev(Sleep, 3600), Ev(Resume, 4200), Sleep, Resume);
    FoldIsPairing(rows, Sleep, Resume);
  }

  /**
   * A power signal and a lock signal that interleave (sleep, sleep, resume,
   * resume) collapse to the later start: only the inner interval is counted.
   */
  lemma InterleavedSignalsCollapse()
    ensures SleepMinutes([Ev(Sleep, 0), Ev(Sleep, 600), Ev(Resume, 1200), Ev(Resume, 1800)]) == 10
  {
    var rows := [Ev(Sleep, 0), Ev(Sleep, 600), Ev(Resume, 1200), Ev(Resume, 1800)];
    LaterStartOverwrites([], Ev(Sleep, 0), Ev(Sleep, 600), Sleep, Resume);
    assert [] + [Ev(Sleep, 0), Ev(Sleep, 600)] == [Ev(Sleep, 0), Ev(Sleep, 600)];
    FoldAppend([Ev(Sleep, 0), Ev(Sleep, 600)], Ev(Resume, 1200), Sleep, Resume);
    assert [Ev(Sleep, 0), Ev(Sleep, 600)] + [Ev(Resume, 1200)] == rows[..3];
    FoldAppend(rows[..3], Ev(Resume, 1800), Sleep, Resume);
    assert rows[..3] + [Ev(Resume, 1800)] == rows;
    FoldIsPairing(rows, Sleep, Resume);
  }

  lemma SleepThenResumeAtOnce()
    ensures SleepMinutes([Ev(Sleep, 600), Ev(Resume, 600), Ev(Resume, 1200)]) == 0
  {
    var s, r, r2 := Ev(Sleep, 600), Ev(Resume, 600), Ev(Resume, 1200);
    FoldAppend([], s, Sleep, Resume);
    assert [] + [s] == [s];
    FoldAppend([s], r, Sleep, Resume);
    assert [s] + [r] == [s, r];
    FoldAppend([s, r], r2, Sleep, Resume);
    assert [s, r] + [r2] == [s, r, r2];
    FoldIsPairing([s, r, r2], Sleep, Resume);
  }

  lemma ResumeThenSleepAtOnce()
    ensures SleepMinutes([Ev(Resume, 600), Ev(Sleep, 600), Ev(Resume, 1200)]) == 10
  {
    var s, r, r2 := Ev(Sleep, 600), Ev(Resume, 600), Ev(Resume, 1200);
    FoldAppend([], r, Sleep, Resume);
    assert [] + [r] == [r];
    FoldAppend([r], s, Sleep, Resume);
    assert [r] + [s] == [r, s];
    FoldAppend([r, s], r2, Sleep, Resume);
    assert [r, s] + [r2] == [r, s, r2];
    FoldIsPairing([r, s, r2], Sleep, Resume);
  }

  lemma SameRows()
    ensures multiset([Ev(Sleep, 600), Ev(Resume, 600), Ev(Resume, 1200)])
         == multiset([Ev(Resume, 600), Ev(Sleep, 600), Ev(Resume, 1200)])
  {
    var s, r, r2 := Ev(Sleep, 600), Ev(Resume, 600), Ev(Resume, 1200);
    assert [s, r, r2] == [s] + [r] + [r2] && [r, s, r2] == [r] + [s] + [r2];
  }

  /** Both orders of a sleep and a resume at the same instant are orderings by event time. */
  lemma TieOrderings()
    ensures IsOrderingOf([Ev(Sleep, 600), Ev(Resume, 600), Ev(Resume, 1200)],
                         [Ev(Resume, 600), Ev(Sleep, 600), Ev(Resume, 1200)], EventTime)
    ensures IsOrderingOf([Ev(Resume, 600), Ev(Sleep, 600), Ev(Resume, 1200)],
                         [Ev(Resume, 600), Ev(Sleep, 600), Ev(Resume, 1200)], EventTime)
  {
    SameRows();
    assert SortedBy([Ev(Sleep, 600), Ev(Resume, 600), Ev(Resume, 1200)], EventTime);
    assert SortedBy([Ev(Resume, 600), Ev(Sleep, 600), Ev(Resume, 1200)], EventTime);
  }

  /**
   * The rows' order matters when two events share a time: both sequences
   * are orderings by event time of the same three rows, and they give
   * different sleep totals.
   */
  lemma TiesChangeTheResult()
    ensures exists a, b ::
      IsOrderingOf(a, b, EventTime) && IsOrderingOf(b, b, EventTime) && SleepMinutes(a) != SleepMinutes(b)
  {
    var a := [Ev(Sleep, 600), Ev(Resume, 600), Ev(Resume, 1200)];
    var b := [Ev(Resume, 600), Ev(Sleep, 600), Ev(Resume, 1200)];
    TieOrderings();
    SleepThenResumeAtOnce();
    ResumeThenSleepAtOnce();
    assert IsOrderingOf(a, b, EventTime) && IsOrderingOf(b, b, EventTime) && SleepMinutes(a) != SleepMinutes(b);
  }
}
