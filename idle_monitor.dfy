/**
 * The idle detector (utils/idle_monitor.py): a monitor per session that is
 * polled with the system's idle time, switches between active and idle at a
 * threshold, logs `idle_start`/`idle_end` rows and keeps its own running
 * total; and the module-level registry of monitors keyed by
 * "<account id>_<session id>".
 *
 * The idle sample (get_idle_duration) and the clock (datetime.now) are
 * parameters. The polling thread is not modelled: `Poll` is one pass of its
 * loop body. The ghost field `emitted` is the list of rows the monitor has
 * asked the store to log; the invariant ties the running total to the same
 * fold the database side uses.
 */
module IdleMonitoring {
  import opened Wrappers
  import opened Calendar
  import opened Text
  import opened EventFold
  import opened Queries

  const IdleSource: string := "idle"
  const DefaultThresholdSeconds: int := 300

  /** The dictionary get_current_status and get_idle_status return. */
  datatype IdleStatus = IdleStatus(isIdle: bool, totalIdleMinutes: int, currentIdleDuration: int)

  /** `s` is idle_start, idle_end, idle_start, ... */
  predicate Alternating(s: seq<Event>) {
    forall i :: 0 <= i < |s| ==> s[i].kind == (if i % 2 == 0 then IdleStart else IdleEnd)
  }

  /**
   * Ending the open idle interval at `now` does not change the idle seconds
   * measured at `now`: the interval is counted as closed instead of as pending.
   */
  lemma CloseAtNowKeepsIdleSeconds(rows: seq<Event>, e: Event, now: Timestamp)
    requires e.kind == IdleEnd && e.time == now
    requires Fold(rows, IdleStart, IdleEnd).pending.Some?
    ensures IdleSeconds(rows + [e], now) == IdleSeconds(rows, now)
  {
    FoldAppend(rows, e, IdleStart, IdleEnd);
    FoldIsPairing(rows, IdleStart, IdleEnd);
    FoldIsPairing(rows + [e], IdleStart, IdleEnd);
  }

  /**
   * The monitor's invariant on its values: the rows it logged alternate
   * between idle_start and idle_end, and folding them gives its running
   * total and, unless it was stopped while idle, its idle start.
   */
  ghost predicate Tracks(emitted: seq<Event>, accountId: nat, sessionId: nat, isIdle: bool,
                         idleStartTime: Option<Timestamp>, totalIdleTime: int, finalised: bool)
  {
    (isIdle <==> idleStartTime.Some?)
    && (forall e :: e in emitted ==> e.accountId == accountId && e.sessionId == sessionId && e.source == IdleSource)
    && Alternating(emitted)
    && (|emitted| % 2 == 1 <==> Fold(emitted, IdleStart, IdleEnd).pending.Some?)
    && Fold(emitted, IdleStart, IdleEnd).seconds == totalIdleTime
    && if finalised then isIdle && Fold(emitted, IdleStart, IdleEnd).pending.None?
       else Fold(emitted, IdleStart, IdleEnd).pending == idleStartTime
  }

  /** Turning idle at `now` and logging idle_start keeps the invariant. */
  lemma TracksStart(emitted: seq<Event>, accountId: nat, sessionId: nat, totalIdleTime: int, now: Timestamp)
    requires Tracks(emitted, accountId, sessionId, false, None, totalIdleTime, false)
    ensures Tracks(emitted + [Event(accountId, sessionId, IdleStart, now, IdleSource)],
                   accountId, sessionId, true, Some(now), totalIdleTime, false)
  {
    var e := Event(accountId, sessionId, IdleStart, now, IdleSource);
    FoldAppend(emitted, e, IdleStart, IdleEnd);
    var s := emitted + [e];
    assert Alternating(s) by {
      forall i | 0 <= i < |s| ensures s[i].kind == (if i % 2 == 0 then IdleStart else IdleEnd) {
        if i < |emitted| {
          assert s[i] == emitted[i];
        }
      }
    }
  }

  /**
   * Ending the idle period that started at `start` and logging idle_end at
   * `now` keeps the invariant, both for a poll (the monitor turns active)
   * and for a stop (`finalised`: the idle flag and start are kept).
   */
  lemma TracksEnd(emitted: seq<Event>, accountId: nat, sessionId: nat, start: Timestamp, totalIdleTime: int,
                  now: Timestamp, finalised: bool)
    requires Tracks(emitted, accountId, sessionId, true, Some(start), totalIdleTime, false)
    ensures Tracks(emitted + [Event(accountId, sessionId, IdleEnd, now, IdleSource)],
                   accountId, sessionId, finalised, if finalised then Some(start) else None,
                   totalIdleTime + (now - start), finalised)
  {
    var e := Event(accountId, sessionId, IdleEnd, now, IdleSource);
    FoldAppend(emitted, e, IdleStart, IdleEnd);
    var s := emitted + [e];
    assert Alternating(s) by {
      forall i | 0 <= i < |s| ensures s[i].kind == (if i % 2 == 0 then IdleStart else IdleEnd) {
        if i < |emitted| {
          assert s[i] == emitted[i];
        }
      }
    }
  }

  class IdleMonitor {
    const accountId: nat
    const sessionId: nat
    const idleThreshold: int
    /** Where log_idle_event writes. */
    const store: SessionStore
    var isIdle: bool
    var idleStartTime: Option<Timestamp>
    /** The running idle total, in seconds. */
    var totalIdleTime: int
    var monitoring: bool
    /** The rows this monitor has logged, in the order it logged them. */
    ghost var emitted: seq<Event>
    /** Stopped while idle: the open interval was closed and logged, but the idle flag kept. */
    ghost var finalised: bool

    ghost predicate Valid()
      reads this
    {
      Tracks(emitted, accountId, sessionId, isIdle, idleStartTime, totalIdleTime, finalised)
    }

    /** Valid and not stopped while idle: the state a polled monitor is in. */
    ghost predicate Live()
      reads this
    {
      Valid() && !finalised
    }

    lemma IdleIffStarted()
      requires Valid()
      ensures isIdle <==> idleStartTime.Some?
    {
    }

    /** IdleMonitor.__init__. */
    constructor (accountId0: nat, sessionId0: nat, store0: SessionStore, threshold: int := DefaultThresholdSeconds)
      ensures Live()
      ensures accountId == accountId0 && sessionId == sessionId0 && idleThreshold == threshold && store == store0
      ensures !isIdle && idleStartTime == None && totalIdleTime == 0 && !monitoring && emitted == []
    {
      accountId, sessionId, idleThreshold, store := accountId0, sessionId0, threshold, store0;
      isIdle, idleStartTime, totalIdleTime, monitoring := false, None, 0, false;
      emitted, finalised := [], false;
    }

    /** start_monitoring: sets the flag (and would start the polling thread); nothing if already set. */
    method StartMonitoring()
      requires Valid()
      modifies this`monitoring
      ensures Valid() && monitoring
    {
      if !monitoring {
        monitoring := true;
      }
    }

    /** The row log_idle_event writes for this monitor. */
    function Row(kind: EventKind, now: Timestamp): Event {
      Event(accountId, sessionId, kind, now, IdleSource)
    }

    /**
     * One pass of _monitor_loop with the sampled idle seconds `sample` at
     * time `now`. At or above the threshold an active monitor turns idle and
     * logs idle_start; below it an idle monitor turns active, adds the idle
     * period and logs idle_end. Nothing else changes anything.
     */
    method Poll(sample: int, now: Timestamp)
      requires Live() && store.Valid()
      modifies this`isIdle, this`idleStartTime, this`totalIdleTime, this`emitted, store`events
      ensures Live() && store.Valid()
      ensures var goesIdle := old(monitoring) && sample >= idleThreshold && !old(isIdle);
        var goesActive := old(monitoring) && sample < idleThreshold && old(isIdle);
        (goesIdle ==> isIdle && idleStartTime == Some(now) && totalIdleTime == old(totalIdleTime)
                      && emitted == old(emitted) + [Row(IdleStart, now)])
        && (goesActive ==>
              !isIdle && idleStartTime == None
              && totalIdleTime == old(totalIdleTime) + (now - old(idleStartTime).value)
              && emitted == old(emitted) + [Row(IdleEnd, now)])
        && (!goesIdle && !goesActive ==>
              isIdle == old(isIdle) && idleStartTime == old(idleStartTime)
              && totalIdleTime == old(totalIdleTime) && emitted == old(emitted))
      ensures store.events == old(store.events) + (if store.connected then emitted[|old(emitted)|..] else [])
      ensures (old(idleStartTime).None? || old(idleStartTime).value <= now) ==> totalIdleTime >= old(totalIdleTime)
    {
      if !monitoring {
        return;
      }
      if sample >= idleThreshold && !isIdle {
        TracksStart(emitted, accountId, sessionId, totalIdleTime, now);
        isIdle := true;
        idleStartTime := Some(now);
        emitted := emitted + [Row(IdleStart, now)];
        var _ := store.LogIdleEvent(accountId, sessionId, IdleStart, now);
      } else if sample < idleThreshold && isIdle {
        isIdle := false;
        if idleStartTime.Some? {
          TracksEnd(emitted, accountId, sessionId, idleStartTime.value, totalIdleTime, now, false);
          totalIdleTime := totalIdleTime + (now - idleStartTime.value);
          emitted := emitted + [Row(IdleEnd, now)];
          var _ := store.LogIdleEvent(accountId, sessionId, IdleEnd, now);
        }
        idleStartTime := None;
      }
    }

    /**
     * stop_monitoring: clears the flag; when idle, adds the period up to
     * `now` and logs idle_end, but leaves the idle flag and start set.
     */
    method StopMonitoring(now: Timestamp)
      requires Live() && store.Valid()
      modifies this`monitoring, this`totalIdleTime, this`emitted, this`finalised, store`events
      ensures Valid() && store.Valid() && !monitoring
      ensures old(isIdle) ==> totalIdleTime == old(totalIdleTime) + (now - old(idleStartTime).value)
                              && emitted == old(emitted) + [Row(IdleEnd, now)] && finalised
      ensures !old(isIdle) ==> totalIdleTime == old(totalIdleTime) && emitted == old(emitted) && Live()
      ensures store.events == old(store.events) + (if store.connected then emitted[|old(emitted)|..] else [])
      ensures IdleSeconds(emitted, now) == IdleSeconds(old(emitted), now)
    {
      IdleIffStarted();
      monitoring := false;
      if isIdle && idleStartTime.Some? {
        ghost var before, total := emitted, totalIdleTime;
        totalIdleTime := totalIdleTime + (now - idleStartTime.value);
        emitted := emitted + [Row(IdleEnd, now)];
        finalised := true;
        TracksEnd(before, accountId, sessionId, idleStartTime.value, total, now, true);
        CloseAtNowKeepsIdleSeconds(before, Row(IdleEnd, now), now);
        var _ := store.LogIdleEvent(accountId, sessionId, IdleEnd, now);
      }
    }

    /**
     * get_current_status at `now`, with `sample` the system idle seconds: the
     * total includes the interval in progress; the current duration is the
     * sample while idle and 0 otherwise.
     */
    function CurrentStatus(now: Timestamp, sample: int): (r: IdleStatus)
      reads this
      ensures r.isIdle == isIdle
      ensures !isIdle ==> r.currentIdleDuration == 0
      ensures Valid() && isIdle ==> r.currentIdleDuration == sample
      ensures Live() ==> r.totalIdleMinutes == IdleMinutes(emitted, now)
    {
      var inProgress := if isIdle && idleStartTime.Some? then now - idleStartTime.value else 0;
      assert Live() ==> WholeMinutes(totalIdleTime + inProgress) == IdleMinutes(emitted, now) by {
        if Live() {
          FoldIsPairing(emitted, IdleStart, IdleEnd);
        }
      }
      IdleStatus(isIdle, WholeMinutes(totalIdleTime + inProgress), if isIdle && idleStartTime.Some? then sample else 0)
    }
  }

  /** The registry key f"{account_id}_{session_id}". */
  function MonitorKey(accountId: nat, sessionId: nat): string {
    NatToString(accountId) + "_" + NatToString(sessionId)
  }

  /**
   * A key reads back as its pair: the account's digits run up to the first
   * `_`, and the session's digits fill the rest.
   */
  lemma MonitorKeyReadsBack(accountId: nat, sessionId: nat)
    ensures var k := MonitorKey(accountId, sessionId); var n := LeadingDigits(k);
      n < |k| && k[n] == '_' && IsDigits(k[n + 1..])
      && ParseDigits(k[..n]) == accountId && ParseDigits(k[n + 1..]) == sessionId
  {
    var x, y := NatToString(accountId), NatToString(sessionId);
    var k := MonitorKey(accountId, sessionId);
    assert k == x + ("_" + y);
    LeadingDigitsOfDigits(x, "_" + y);
    ParseNatToString(accountId);
    ParseNatToString(sessionId);
    assert k[..|x|] == x && k[|x| + 1..] == y;
  }

  /** Different sessions never share a registry key. */
  lemma MonitorKeyInjective(a1: nat, s1: nat, a2: nat, s2: nat)
    requires MonitorKey(a1, s1) == MonitorKey(a2, s2)
    ensures a1 == a2 && s1 == s2
  {
    MonitorKeyReadsBack(a1, s1);
    MonitorKeyReadsBack(a2, s2);
  }

  /** Every monitor in `ms` is running, reports to `store` and sits under its own key. */
  ghost predicate Registered(ms: map<string, IdleMonitor>, store: SessionStore)
    reads ms.Values
  {
    forall k :: k in ms ==>
      ms[k].Live() && ms[k].monitoring && ms[k].store == store
      && k == MonitorKey(ms[k].accountId, ms[k].sessionId)
  }

  /** Every monitor in `ms` existed before and has kept all its fields. */
  twostate predicate Untouched(new ms: map<string, IdleMonitor>)
    reads ms.Values
  {
    forall k :: k in ms ==> old(allocated(ms[k])) && unchanged(ms[k])
  }

  lemma RegisteredInsert(ms: map<string, IdleMonitor>, store: SessionStore, key: string, m: IdleMonitor)
    requires Registered(ms, store) && m.Live() && m.monitoring && m.store == store
    requires key == MonitorKey(m.accountId, m.sessionId)
    ensures Registered(ms[key := m], store)
  {
  }

  /** active_idle_monitors and the functions that maintain it. */
  class MonitorRegistry {
    const store: SessionStore
    var monitors: map<string, IdleMonitor>

    ghost predicate Valid()
      reads this, monitors.Values
    {
      Registered(monitors, store)
    }

    lemma KeysNameDistinctMonitors(k1: string, k2: string)
      requires Valid() && k1 in monitors && k2 in monitors && k1 != k2
      ensures monitors[k1] != monitors[k2]
    {
    }

    constructor (store0: SessionStore)
      ensures Valid() && store == store0 && monitors == map[]
    {
      store := store0;
      monitors := map[];
    }

    /** Stops the monitor under `key`, if there is one, and removes it. */
    method Drop(key: string, now: Timestamp)
      requires Valid() && store.Valid()
      modifies this`monitors, monitors.Values, store`events
      ensures Valid() && store.Valid()
      ensures monitors == old(monitors) - {key} && Untouched(monitors)
      ensures key in old(monitors) && old(monitors[key].isIdle) && store.connected ==>
        store.events == old(store.events) + [old(monitors)[key].Row(IdleEnd, now)]
      ensures !(key in old(monitors) && old(monitors[key].isIdle) && store.connected) ==> store.events == old(store.events)
    {
      if key in monitors {
        var m := monitors[key];
        forall k | k in monitors && k != key ensures monitors[k] != m {
          KeysNameDistinctMonitors(k, key);
        }
        m.StopMonitoring(now);
        monitors := monitors - {key};
      }
    }

    /**
     * start_idle_monitoring: stops and drops the monitor already under the
     * key; then, unless the idle sample is negative, stores a fresh running
     * monitor under it.
     */
    method StartIdleMonitoring(accountId: nat, sessionId: nat, sample: int, now: Timestamp,
                               threshold: int := DefaultThresholdSeconds)
      returns (r: Option<IdleMonitor>)
      requires Valid() && store.Valid()
      modifies this`monitors, monitors.Values, store`events
      ensures Valid() && store.Valid()
      ensures var key := MonitorKey(accountId, sessionId);
        (sample < 0 ==> r == None && monitors == old(monitors) - {key})
        && (sample >= 0 ==>
              r.Some? && fresh(r.value) && monitors == (old(monitors) - {key})[key := r.value]
              && r.value.accountId == accountId && r.value.sessionId == sessionId
              && r.value.idleThreshold == threshold && r.value.store == store
              && !r.value.isIdle && r.value.totalIdleTime == 0 && r.value.emitted == [])
      ensures Untouched(monitors - {MonitorKey(accountId, sessionId)})
      ensures var key := MonitorKey(accountId, sessionId);
        key in old(monitors) && old(monitors[key].isIdle) && store.connected ==>
          store.events == old(store.events) + [Event(accountId, sessionId, IdleEnd, now, IdleSource)]
      ensures var key := MonitorKey(accountId, sessionId);
        !(key in old(monitors) && old(monitors[key].isIdle) && store.connected) ==> store.events == old(store.events)
    {
      StopIdleMonitoring(accountId, sessionId, now);
      if sample < 0 {
        return None;
      }
      var m := Install(accountId, sessionId, threshold);
      r := Some(m);
    }

    /** Stores a fresh, started monitor for the session under its key, which is free. */
    method Install(accountId: nat, sessionId: nat, threshold: int) returns (m: IdleMonitor)
      requires Valid() && MonitorKey(accountId, sessionId) !in monitors
      modifies this`monitors
      ensures Valid() && fresh(m) && monitors == old(monitors)[MonitorKey(accountId, sessionId) := m]
      ensures m.accountId == accountId && m.sessionId == sessionId
              && m.idleThreshold == threshold && m.store == store
              && !m.isIdle && m.totalIdleTime == 0 && m.emitted == []
    {
      m := Launch(accountId, sessionId, threshold);
      RegisteredInsert(monitors, store, MonitorKey(accountId, sessionId), m);
      monitors := monitors[MonitorKey(accountId, sessionId) := m];
    }

    /** `IdleMonitor(account_id, session_id, threshold)` followed by its start_monitoring(). */
    method Launch(accountId: nat, sessionId: nat, threshold: int) returns (m: IdleMonitor)
      ensures fresh(m) && m.Live() && m.monitoring && m.store == store
      ensures m.accountId == accountId && m.sessionId == sessionId && m.idleThreshold == threshold
      ensures !m.isIdle && m.totalIdleTime == 0 && m.emitted == []
    {
      m := new IdleMonitor(accountId, sessionId, store, threshold);
      m.StartMonitoring();
    }

    /** stop_idle_monitoring: stops and drops the key's monitor; other keys are untouched. */
    method StopIdleMonitoring(accountId: nat, sessionId: nat, now: Timestamp)
      requires Valid() && store.Valid()
      modifies this`monitors, monitors.Values, store`events
      ensures Valid() && store.Valid()
      ensures Untouched(monitors)
      ensures var key := MonitorKey(accountId, sessionId);
        monitors == old(monitors) - {key}
        && (key in old(monitors) && old(monitors[key].isIdle) && store.connected ==>
              store.events == old(store.events) + [Event(accountId, sessionId, IdleEnd, now, IdleSource)])
        && (!(key in old(monitors) && old(monitors[key].isIdle) && store.connected) ==> store.events == old(store.events))
    {
      var key := MonitorKey(accountId, sessionId);
      if key in monitors {
        MonitorKeyInjective(accountId, sessionId, monitors[key].accountId, monitors[key].sessionId);
      }
      Drop(key, now);
    }

    /** get_idle_status: the key's monitor's status, or not idle with zeros. */
    function GetIdleStatus(accountId: nat, sessionId: nat, now: Timestamp, sample: int): (r: IdleStatus)
      reads this, monitors.Values
      ensures MonitorKey(accountId, sessionId) !in monitors ==> r == IdleStatus(false, 0, 0)
      ensures Valid() && MonitorKey(accountId, sessionId) in monitors ==>
        r.totalIdleMinutes == IdleMinutes(monitors[MonitorKey(accountId, sessionId)].emitted, now)
        && r.isIdle == monitors[MonitorKey(accountId, sessionId)].isIdle
        && r.currentIdleDuration == (if r.isIdle then sample else 0)
    {
      var key := MonitorKey(accountId, sessionId);
      if key in monitors then monitors[key].CurrentStatus(now, sample) else IdleStatus(false, 0, 0)
    }
  }
}
