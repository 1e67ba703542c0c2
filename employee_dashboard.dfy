/**
 * The figures the employee dashboard (gui/employee_dashboard.py) shows for
 * the running session: the work minutes, the minute and duration texts and
 * the session timer. The labels' fixed prefixes and the colours are not
 * modelled; the texts below are the parts that depend on the numbers.
 */
module EmployeeDashboard {
  import opened Wrappers
  import opened Calendar
  import opened Text
  import opened EventFold
  import opened Queries

  /**
   * A count in two units, the larger one being 60 of the smaller: "{n}<small>"
   * below 60, "{n // 60}<big> {n % 60}<small>" from 60 on.
   */
  function Units(n: int, big: char, small: char): string {
    if n < 60 then IntToString(n) + [small]
    else NatToString(n / 60) + [big] + " " + NatToString(n % 60) + [small]
  }

  /** format_minutes: "45m", "1h 5m"; a non-negative count reads back from its text. */
  function FormatMinutes(minutes: int): (r: string)
    ensures minutes >= 0 ==> ReadUnits(r, 'h', 'm') == Some(minutes)
  {
    assert minutes >= 0 ==> ReadUnits(Units(minutes, 'h', 'm'), 'h', 'm') == Some(minutes) by {
      if minutes >= 0 {
        UnitsRoundTrip(minutes, 'h', 'm');
      }
    }
    Units(minutes, 'h', 'm')
  }

  /** The idle-for text of update_idle_status (and of the system-idle label): "42s", "5m 3s". */
  function IdleDurationText(seconds: int): (r: string)
    ensures seconds >= 0 ==> ReadUnits(r, 'm', 's') == Some(seconds)
  {
    assert seconds >= 0 ==> ReadUnits(Units(seconds, 'm', 's'), 'm', 's') == Some(seconds) by {
      if seconds >= 0 {
        UnitsRoundTrip(seconds, 'm', 's');
      }
    }
    Units(seconds, 'm', 's')
  }

  /** Reads back a text written by `Units` for a non-negative count. */
  function ReadUnits(s: string, big: char, small: char): Option<int> {
    if s == [] || s[|s| - 1] != small then None
    else
      var b := s[..|s| - 1];
      var i := LeadingDigits(b);
      if i == 0 then None
      else if i == |b| then Some(ParseDigits(b))
      else if i + 2 < |b| && b[i] == big && b[i + 1] == ' ' && IsDigits(b[i + 2..])
      then Some(60 * ParseDigits(b[..i]) + ParseDigits(b[i + 2..]))
      else None
  }

  lemma ReadUnitsSmall(n: nat, small: char, big: char)
    requires n < 60
    ensures ReadUnits(Units(n, big, small), big, small) == Some(n)
  {
    var x := NatToString(n);
    var s := x + [small];
    assert Units(n, big, small) == s;
    assert s[..|s| - 1] == x;
    LeadingDigitsOfDigits(x, []);
    assert x + [] == x;
    assert LeadingDigits(x) == |x|;
    ParseNatToString(n);
  }

  lemma ReadUnitsLarge(n: nat, big: char, small: char)
    requires n >= 60 && !IsDigit(big)
    ensures ReadUnits(Units(n, big, small), big, small) == Some(n)
  {
    var h, m := NatToString(n / 60), NatToString(n % 60);
    var b := h + ([big] + " " + m);
    UnitsLargeLayout(n, big, small);
    ReadUnitsFields(Units(n, big, small), b, h, m, big, small);
    ParseNatToString(n / 60);
    ParseNatToString(n % 60);
    assert 60 * ParseDigits(h) + ParseDigits(m) == n by {
      assert ParseDigits(h) == n / 60 && ParseDigits(m) == n % 60;
    }
  }

  /** Where the two counts of a two-unit text sit. */
  lemma UnitsLargeLayout(n: nat, big: char, small: char)
    requires n >= 60 && !IsDigit(big)
    ensures var h, m := NatToString(n / 60), NatToString(n % 60);
      var b := h + ([big] + " " + m);
      var s := Units(n, big, small);
      s != [] && s[|s| - 1] == small && s[..|s| - 1] == b && |h| + 2 < |b|
      && LeadingDigits(b) == |h| && b[..|h|] == h && b[|h|] == big && b[|h| + 1] == ' '
      && b[|h| + 2..] == m
  {
    var h, m := NatToString(n / 60), NatToString(n % 60);
    var b := h + ([big] + " " + m);
    var s := b + [small];
    UnitsLargeText(n, big, small);
    assert s[..|s| - 1] == b;
    LeadingDigitsOfDigits(h, [big] + " " + m);
    assert b[..|h|] == h && b[|h| + 2..] == m;
  }

  lemma UnitsLargeText(n: nat, big: char, small: char)
    requires n >= 60
    ensures Units(n, big, small) == NatToString(n / 60) + ([big] + " " + NatToString(n % 60)) + [small]
  {
  }

  /** `ReadUnits` reads the two counts it finds around `big`. */
  lemma ReadUnitsFields(s: string, b: string, h: string, m: string, big: char, small: char)
    requires s != [] && s[|s| - 1] == small && s[..|s| - 1] == b && h != [] && |h| + 2 < |b|
    requires LeadingDigits(b) == |h| && b[..|h|] == h && b[|h|] == big && b[|h| + 1] == ' '
    requires b[|h| + 2..] == m && IsDigits(m)
    ensures ReadUnits(s, big, small) == Some(60 * ParseDigits(h) + ParseDigits(m))
  {
    var i := LeadingDigits(b);
    assert i != 0 && i != |b| && i + 2 < |b|;
    assert b[..i] == h && b[i + 2..] == m && b[i] == big && b[i + 1] == ' ';
  }

  /** Nothing is lost in the two-unit text: it reads back as the count it shows. */
  lemma UnitsRoundTrip(n: nat, big: char, small: char)
    requires !IsDigit(big)
    ensures ReadUnits(Units(n, big, small), big, small) == Some(n)
  {
    if n < 60 {
      ReadUnitsSmall(n, small, big);
    } else {
      ReadUnitsLarge(n, big, small);
    }
  }

  /** Different minute counts never show the same text. */
  lemma FormatMinutesInjective(a: nat, b: nat)
    requires FormatMinutes(a) == FormatMinutes(b)
    ensures a == b
  {
    UnitsRoundTrip(a, 'h', 'm');
    UnitsRoundTrip(b, 'h', 'm');
  }

  lemma IdleDurationTextInjective(a: nat, b: nat)
    requires IdleDurationText(a) == IdleDurationText(b)
    ensures a == b
  {
    UnitsRoundTrip(a, 'm', 's');
    UnitsRoundTrip(b, 'm', 's');
  }

  /**
   * update_session_stats's work minutes: 0 without a clock-in, otherwise the
   * whole minutes since clock-in less sleep and idle, but never below 0.
   */
  function LiveWorkMinutes(clockIn: Option<Timestamp>, now: Timestamp, sleep: int, idle: int): (w: int)
    ensures w >= 0
    ensures clockIn.None? ==> w == 0
    ensures clockIn.Some? ==> w >= WholeMinutes(now - clockIn.value) - sleep - idle
    ensures clockIn.Some? ==> w == 0 || w == WholeMinutes(now - clockIn.value) - sleep - idle
    ensures clockIn.Some? && clockIn.value <= now && sleep >= 0 && idle >= 0 ==>
      w <= WholeMinutes(now - clockIn.value) && 60 * w <= now - clockIn.value
  {
    if clockIn.None? then 0 else WorkMinutes(WholeMinutes(now - clockIn.value), sleep, idle)
  }

  lemma ClosedNowIsLive(before: Session, after: Session, now: Timestamp, sleep: int, idle: int)
    requires after == before.(clockOut := Some(now),
                              totalWorkMinutes := Some(WorkMinutes(WholeMinutes(now - before.clockIn), sleep, idle)),
                              sleepMinutes := Some(sleep))
    ensures after.totalWorkMinutes == Some(LiveWorkMinutes(Some(before.clockIn), now, sleep, idle))
  {
  }

  /**
   * The live work figure is what end_session stores when the session is
   * closed now, for the sleep and idle minutes end_session computes.
   */
  lemma LiveWorkIsEndSessionWork(before: Session, after: Session, now: Timestamp, es: seq<Event>)
    requires ClosedBy(before, after, now, now, es)
    ensures exists sleep, idle ::
              (SleepMinutesAre(es, before.id, sleep) && IdleMinutesAre(es, before.id, now, idle)
               && after.totalWorkMinutes == Some(LiveWorkMinutes(Some(before.clockIn), now, sleep, idle))
               && after.sleepMinutes == Some(sleep))
  {
    var sleep, idle :| SleepMinutesAre(es, before.id, sleep) && IdleMinutesAre(es, before.id, now, idle)
      && after == before.(clockOut := Some(now),
                          totalWorkMinutes := Some(WorkMinutes(WholeMinutes(now - before.clockIn), sleep, idle)),
                          sleepMinutes := Some(sleep));
    ClosedNowIsLive(before, after, now, sleep, idle);
    assert SleepMinutesAre(es, before.id, sleep) && IdleMinutesAre(es, before.id, now, idle)
      && after.totalWorkMinutes == Some(LiveWorkMinutes(Some(before.clockIn), now, sleep, idle))
      && after.sleepMinutes == Some(sleep);
  }

  /**
   * update_timer: the seconds since clock-in as zero-padded hours, minutes and
   * seconds. A clock-in later than the clock gives negative hours, as `divmod`
   * rounds down: -1 second shows as "-1:59:59".
   */
  function TimerText(elapsed: int): (r: string)
    ensures |r| >= 8
  {
    var h := Hms(elapsed);
    ZeroPad2(h.0) + ":" + ZeroPad2(h.1) + ":" + ZeroPad2(h.2)
  }

  /** Reads an "HH:MM:SS" text back as seconds: the hours, possibly negative, are everything before the last six characters. */
  function ReadTimer(r: string): Option<int> {
    if |r| >= 8 && r[|r| - 6] == ':' && r[|r| - 3] == ':'
       && IsSignedDigits(r[..|r| - 6]) && IsDigits(r[|r| - 5..|r| - 3]) && IsDigits(r[|r| - 2..])
    then Some(3600 * ParseSigned(r[..|r| - 6]) + 60 * ParseDigits(r[|r| - 5..|r| - 3]) + ParseDigits(r[|r| - 2..]))
    else None
  }

  lemma ParseZeroPad2(n: int)
    ensures ParseSigned(ZeroPad2(n)) == n
    ensures n >= 0 ==> ParseDigits(ZeroPad2(n)) == n
  {
    if n < 0 {
      assert ZeroPad2(n) == "-" + NatToString(-n);
      ParseNegative(n);
    } else if n < 10 {
      assert ZeroPad2(n) == "0" + NatToString(n);
      ParseOnePadded(n);
    } else {
      assert ZeroPad2(n) == NatToString(n);
      ParseNatToString(n);
    }
  }

  lemma ParseNegative(n: int)
    requires n < 0
    ensures ParseSigned("-" + NatToString(-n)) == n
  {
    var s := "-" + NatToString(-n);
    assert s[1..] == NatToString(-n);
    ParseNatToString(-n);
  }

  lemma ParseOnePadded(n: nat)
    requires n < 10
    ensures ParseDigits("0" + NatToString(n)) == n
  {
    var s := "0" + NatToString(n);
    assert s[..|s| - 1] == "0";
    assert ParseDigits("0") == 10 * ParseDigits([]) + 0;
  }

  /** Where the three fields of an "H:MM:SS" text sit. */
  lemma TimerFieldsAt(r: string, a: string, b: string, c: string)
    requires r == a + ":" + b + ":" + c && |b| == 2 && |c| == 2
    ensures |r| == |a| + 6 && r[..|r| - 6] == a && r[|r| - 5..|r| - 3] == b && r[|r| - 2..] == c
    ensures r[|r| - 6] == ':' && r[|r| - 3] == ':'
  {
  }

  /** `ReadTimer` reads the fields it finds in their places. */
  lemma ReadTimerFields(r: string, a: string, b: string, c: string, h: int, m: int, sec: int)
    requires |a| >= 2 && |r| == |a| + 6 && r[..|r| - 6] == a && r[|r| - 5..|r| - 3] == b && r[|r| - 2..] == c
    requires r[|r| - 6] == ':' && r[|r| - 3] == ':' && IsSignedDigits(a) && IsDigits(b) && IsDigits(c)
    requires ParseSigned(a) == h && ParseDigits(b) == m && ParseDigits(c) == sec
    ensures ReadTimer(r) == Some(3600 * h + 60 * m + sec)
  {
  }

  /** The timer shows the whole elapsed time, negative included: its three fields add back up to it. */
  lemma TimerTextRoundTrip(elapsed: int)
    ensures ReadTimer(TimerText(elapsed)) == Some(elapsed)
  {
    var h := Hms(elapsed);
    ReadPaddedFields(h.0, h.1, h.2);
  }

  /** The text of three padded fields reads back as the seconds they add up to. */
  lemma ReadPaddedFields(h: int, m: int, sec: int)
    requires 0 <= m < 60 && 0 <= sec < 60
    ensures ReadTimer(ZeroPad2(h) + ":" + ZeroPad2(m) + ":" + ZeroPad2(sec)) == Some(3600 * h + 60 * m + sec)
  {
    var a, b, c := ZeroPad2(h), ZeroPad2(m), ZeroPad2(sec);
    var r := a + ":" + b + ":" + c;
    TimerFieldsAt(r, a, b, c);
    ParseZeroPad2(h);
    ParseZeroPad2(m);
    ParseZeroPad2(sec);
    ReadTimerFields(r, a, b, c, h, m, sec);
  }
}
