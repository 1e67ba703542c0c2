/**
 * What both dashboards (gui/admin_dashboard.py, gui/employee_dashboard.py) do
 * with the session of the user who is logged in: reuse the account's open
 * session or clock in, start idle monitoring for it, show the feedback
 * dialog at most once, and on logout stop the idle monitor before the
 * session is ended.
 *
 * The two windows hold the same three fields (the admin one calls the
 * session id `current_session_id`) and run the same steps, so one class
 * models both. The timeout monitor, the activity-monitor thread, the timers
 * and the windows themselves are not modelled.
 */
module DashboardSession {
  import opened Wrappers
  import opened Calendar
  import opened EventFold
  import opened Queries
  import opened IdleMonitoring

  /** The idle thresholds the admin and the employee window pass to start_idle_monitoring, in seconds. */
  const AdminIdleThreshold: int := 60
  const EmployeeIdleThreshold: int := 300

  /** `session_id` is set and truthy. */
  predicate HasSession(sessionId: Option<nat>) {
    sessionId.Some? && sessionId.value != 0
  }

  class Dashboard {
    const accountId: nat
    const store: SessionStore
    const registry: MonitorRegistry
    /** What get_mac_address() returns on this machine; start_session records it. */
    const deviceMac: string
    /** The threshold this window passes to start_idle_monitoring. */
    const idleThreshold: int
    var sessionId: Option<nat>
    var clockInTime: Option<Timestamp>
    var feedbackShown: bool
    /** How many times the feedback dialog has been opened. */
    ghost var dialogs: nat

    ghost predicate Valid()
      reads this, store, registry, registry.monitors.Values
    {
      store.Valid() && registry.Valid() && registry.store == store
      && dialogs == (if feedbackShown then 1 else 0)
    }

    /** The admin window (`admin`) or the employee window: their idle thresholds differ. */
    constructor (admin: bool, accountId0: nat, store0: SessionStore, registry0: MonitorRegistry, deviceMac0: string)
      requires store0.Valid() && registry0.Valid() && registry0.store == store0
      ensures Valid()
      ensures accountId == accountId0 && store == store0 && registry == registry0 && deviceMac == deviceMac0
      ensures idleThreshold == (if admin then AdminIdleThreshold else EmployeeIdleThreshold)
      ensures sessionId == None && clockInTime == None && !feedbackShown && dialogs == 0
    {
      accountId, store, registry, deviceMac := accountId0, store0, registry0, deviceMac0;
      idleThreshold := if admin then AdminIdleThreshold else EmployeeIdleThreshold;
      sessionId, clockInTime, feedbackShown := None, None, false;
      dialogs := 0;
    }

    /**
     * auto_clock_in: the clock-in time is set to `now` first, then a session
     * is started; when start_session raises, the session id stays as it was.
     */
    method AutoClockIn(now: Timestamp)
      requires Valid()
      modifies this`sessionId, this`clockInTime, store
      ensures Valid()
      ensures clockInTime == Some(now) && feedbackShown == old(feedbackShown)
      ensures store.events == old(store.events) && store.accounts == old(store.accounts) && store.feedback == old(store.feedback)
      ensures store.connected ==>
        sessionId == Some(old(store.nextSessionId))
        && store.sessions == old(store.sessions) + [Session(sessionId.value, accountId, now, None, DateOf(now), Some(deviceMac), None, None)]
      ensures !store.connected ==> sessionId == old(sessionId) && store.sessions == old(store.sessions)
    {
      clockInTime := Some(now);
      var r := store.StartSession(accountId, now, None, deviceMac);
      if r.Success? {
        sessionId := Some(r.value);
      }
    }

    /**
     * check_and_handle_existing_session: the account's open session with the
     * latest clock-in is taken over as it is; with none, or when the lookup
     * raises, the user is clocked in at `now`.
     */
    method CheckAndHandleExistingSession(now: Timestamp)
      requires Valid()
      modifies this`sessionId, this`clockInTime, store
      ensures Valid()
      ensures var found := old(store.GetActiveSession(accountId));
        (found.Success? && found.value.Some? ==>
           sessionId == Some(found.value.value.0) && clockInTime == Some(found.value.value.1)
           && store.sessions == old(store.sessions))
        && (found == Success(None) ==>
              clockInTime == Some(now) && sessionId == Some(old(store.nextSessionId))
              && store.sessions == old(store.sessions) + [Session(old(store.nextSessionId), accountId, now, None, DateOf(now), Some(deviceMac), None, None)])
        && (found.Failure? ==> clockInTime == Some(now) && sessionId == old(sessionId) && store.sessions == old(store.sessions))
      ensures store.events == old(store.events)
    {
      var found := store.GetActiveSession(accountId);
      if found.Success? && found.value.Some? && found.value.value.0 != 0 {
        sessionId := Some(found.value.value.0);
        clockInTime := Some(found.value.value.1);
      } else {
        AutoClockIn(now);
      }
    }

    /**
     * The idle-monitoring part of update_ui_for_active_session (admin) and
     * showEvent (employee): once there is a session and a clock-in time,
     * the monitor under the session's key is replaced by a fresh one with
     * the window's threshold, or only dropped when the idle sample is
     * negative; the other monitors are left as they were.
     */
    method StartIdleTracking(sample: int, now: Timestamp)
      requires Valid()
      modifies registry`monitors, registry.monitors.Values, store`events
      ensures Valid()
      ensures HasSession(sessionId) && clockInTime.Some? ==>
        var key := MonitorKey(accountId, sessionId.value);
        (sample < 0 ==> registry.monitors == old(registry.monitors) - {key})
        && (sample >= 0 ==>
              key in registry.monitors && fresh(registry.monitors[key])
              && registry.monitors == (old(registry.monitors) - {key})[key := registry.monitors[key]]
              && !registry.monitors[key].isIdle && registry.monitors[key].totalIdleTime == 0
              && registry.monitors[key].idleThreshold == idleThreshold)
        && (key in old(registry.monitors) && old(registry.monitors[key].isIdle) && store.connected ==>
              store.events == old(store.events) + [Event(accountId, sessionId.value, IdleEnd, now, IdleSource)])
        && (!(key in old(registry.monitors) && old(registry.monitors[key].isIdle) && store.connected) ==>
              store.events == old(store.events))
        && Untouched(registry.monitors - {key})
      ensures !(HasSession(sessionId) && clockInTime.Some?) ==>
        registry.monitors == old(registry.monitors) && store.events == old(store.events)
        && Untouched(registry.monitors)
    {
      if HasSession(sessionId) && clockInTime.Some? {
        var _ := registry.StartIdleMonitoring(accountId, sessionId.value, sample, now, idleThreshold);
      }
    }

    /** show_feedback_dialog: opens the dialog only the first time. */
    method ShowFeedbackDialog()
      requires Valid()
      modifies this`feedbackShown, this`dialogs
      ensures Valid() && feedbackShown
      ensures dialogs == old(dialogs) + (if old(feedbackShown) then 0 else 1)
    {
      if !feedbackShown {
        feedbackShown := true;
        dialogs := dialogs + 1;
      }
    }

    /**
     * handle_logout (and handle_logout_logic, and the employee's closeEvent):
     * the feedback dialog if not yet shown; then, with a session, its idle
     * monitor is stopped (logging idle_end if it was idle) before end_session
     * closes it at `now`, so the idle time end_session measures ends at `now`;
     * without one, every open session of the account is clocked out.
     */
    method Logout(now: Timestamp)
      requires Valid()
      modifies this`feedbackShown, this`dialogs, registry`monitors, registry.monitors.Values, store`events, store`sessions
      ensures Valid() && feedbackShown && dialogs <= 1
      ensures Untouched(registry.monitors)
      ensures HasSession(sessionId) ==>
        var sid := sessionId.value;
        var key := MonitorKey(accountId, sid);
        registry.monitors == old(registry.monitors) - {key}
        && (key in old(registry.monitors) && old(registry.monitors[key].isIdle) && store.connected ==>
              store.events == old(store.events) + [Event(accountId, sid, IdleEnd, now, IdleSource)])
        && (!(key in old(registry.monitors) && old(registry.monitors[key].isIdle) && store.connected) ==>
              store.events == old(store.events))
        && (store.connected && IndexOf(old(store.sessions), sid).Some? ==>
              ClosesRow(old(store.sessions), store.sessions, IndexOf(old(store.sessions), sid).value, now, now, store.events))
        && (!store.connected || IndexOf(old(store.sessions), sid).None? ==> store.sessions == old(store.sessions))
      ensures !HasSession(sessionId) ==>
        registry.monitors == old(registry.monitors) && store.events == old(store.events)
        && |store.sessions| == |old(store.sessions)|
        && (store.connected ==> forall k :: 0 <= k < |store.sessions| ==>
              if IsOpenOf(old(store.sessions)[k], accountId) then ClosedBy(old(store.sessions)[k], store.sessions[k], now, now, store.events)
              else store.sessions[k] == old(store.sessions)[k])
        && (!store.connected ==> store.sessions == old(store.sessions))
    {
      if !feedbackShown {
        ShowFeedbackDialog();
      }
      if HasSession(sessionId) {
        EndCurrentSession(now);
      } else {
        EndAllOpenSessions(now);
      }
    }

    /** The logout steps for a window without a session: auto_clock_out_all_sessions for the account. */
    method EndAllOpenSessions(now: Timestamp)
      requires Valid() && !HasSession(sessionId)
      modifies store`sessions
      ensures Valid()
      ensures store.events == old(store.events) && |store.sessions| == |old(store.sessions)|
      ensures store.connected ==> forall k :: 0 <= k < |store.sessions| ==>
        if IsOpenOf(old(store.sessions)[k], accountId) then ClosedBy(old(store.sessions)[k], store.sessions[k], now, now, store.events)
        else store.sessions[k] == old(store.sessions)[k]
      ensures !store.connected ==> store.sessions == old(store.sessions)
    {
      var _ := store.AutoClockOutAllSessions(accountId, now);
    }

    /**
     * The logout steps for a window with a session: its idle monitor is
     * stopped and removed, then end_session closes the session at `now`.
     */
    method EndCurrentSession(now: Timestamp)
      requires Valid() && HasSession(sessionId)
      modifies registry`monitors, registry.monitors.Values, store`events, store`sessions
      ensures Valid() && Untouched(registry.monitors)
      ensures var sid := sessionId.value;
        var key := MonitorKey(accountId, sid);
        registry.monitors == old(registry.monitors) - {key}
        && (key in old(registry.monitors) && old(registry.monitors[key].isIdle) && store.connected ==>
              store.events == old(store.events) + [Event(accountId, sid, IdleEnd, now, IdleSource)])
        && (!(key in old(registry.monitors) && old(registry.monitors[key].isIdle) && store.connected) ==>
              store.events == old(store.events))
        && (store.connected && IndexOf(old(store.sessions), sid).Some? ==>
              ClosesRow(old(store.sessions), store.sessions, IndexOf(old(store.sessions), sid).value, now, now, store.events))
        && (!store.connected || IndexOf(old(store.sessions), sid).None? ==> store.sessions == old(store.sessions))
    {
      registry.StopIdleMonitoring(accountId, sessionId.value, now);
      var _ := store.EndSession(sessionId.value, now, now);
    }

    /**
     * The window's logout followed by its close event, which runs the logout
     * steps a second time: the dialog still opens at most once, but the
     * session is ended twice and keeps the second clock-out.
     */
    method LogoutThenClose(now: Timestamp, closeNow: Timestamp)
      requires Valid()
      modifies this`feedbackShown, this`dialogs, registry`monitors, registry.monitors.Values, store`events, store`sessions
      ensures Valid() && feedbackShown
      ensures dialogs == old(dialogs) + (if old(feedbackShown) then 0 else 1)
      ensures Untouched(registry.monitors)
      ensures HasSession(sessionId) && store.connected && IndexOf(old(store.sessions), sessionId.value).Some? ==>
        var k := IndexOf(old(store.sessions), sessionId.value).value;
        |store.sessions| == |old(store.sessions)| && store.sessions[k].clockOut == Some(closeNow)
        && forall j :: 0 <= j < |store.sessions| && j != k ==> store.sessions[j] == old(store.sessions)[j]
    {
      ghost var before := store.sessions;
      ghost var closes := HasSession(sessionId) && store.connected && IndexOf(before, sessionId.value).Some?;
      ghost var k := if closes then IndexOf(before, sessionId.value).value else 0;
      Logout(now);
      ghost var mid, midEvents := store.sessions, store.events;
      if closes {
        assert ClosesRow(before, mid, k, now, now, midEvents);
        ClosesRowKeepsIndex(before, mid, k, now, now, midEvents);
      }
      Logout(closeNow);
      if closes {
        assert ClosesRow(mid, store.sessions, k, closeNow, closeNow, store.events);
        ClosesRowTwice(before, mid, store.sessions, k, now, now, midEvents, closeNow, closeNow, store.events);
      }
    }
  }
}
