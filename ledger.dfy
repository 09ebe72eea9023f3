/**
 * The sessions table of bot.py and the two button handlers that change it,
 * with the chat platform and SQLite stripped away. A row's index in the
 * sequence is its SQLite rowid order; rows are never deleted.
 */
module SessionLedger {
  import opened Wrappers
  import opened WeekBucket

  /** A row (user_id, start_time, end_time, duration_seconds); end None is SQL NULL, duration in microseconds. */
  datatype Session = Session(userId: nat, start: DateTime, end: Option<DateTime>, duration: int)

  datatype LoginOutcome = LoggedIn | AlreadyLoggedIn

  /**
   * NotLoggedIn: no open row. LoggedOut: the session duration and the weekly
   * total shown to the user. WeekStartOutOfRange: get_week_start raised after
   * the row had already been closed and committed, so nothing is shown.
   */
  datatype LogoutOutcome =
    | NotLoggedIn
    | LoggedOut(duration: int, weeklyTotal: int)
    | WeekStartOutOfRange(duration: int)

  predicate IsOpenFor(s: Session, user: nat) {
    s.userId == user && s.end.None?
  }

  predicate IsClosedFor(s: Session, user: nat) {
    s.userId == user && s.end.Some?
  }

  ghost predicate HasOpen(rows: seq<Session>, user: nat) {
    exists j :: 0 <= j < |rows| && IsOpenFor(rows[j], user)
  }

  /** At most one row per user has a NULL end_time. */
  ghost predicate AtMostOneOpen(rows: seq<Session>) {
    forall i, j :: 0 <= i < j < |rows| && rows[i].end.None? && rows[j].end.None? ==> rows[i].userId != rows[j].userId
  }

  /** A row as login and logout leave it: an open row has duration 0, a closed one end - start. */
  ghost predicate WellFormedRow(s: Session) {
    && ValidDateTime(s.start)
    && match s.end
       case None => s.duration == 0
       case Some(e) => ValidDateTime(e) && s.duration == Instant(e) - Instant(s.start)
  }

  ghost predicate TableInvariant(rows: seq<Session>) {
    AtMostOneOpen(rows) && forall i :: 0 <= i < |rows| ==> WellFormedRow(rows[i])
  }

  /** SELECT ... WHERE user_id=? AND end_time IS NULL, fetchone(): the first open row of the user. */
  function FindOpen(rows: seq<Session>, user: nat): (r: Option<nat>)
    ensures r.Some? ==> r.value < |rows| && IsOpenFor(rows[r.value], user)
    ensures r.Some? ==> forall j :: 0 <= j < r.value ==> !IsOpenFor(rows[j], user)
    ensures r.None? <==> !HasOpen(rows, user)
  {
    if rows == [] then None
    else
      var prefix := FindOpen(rows[..|rows| - 1], user);
      if prefix.Some? then Some(prefix.value)
      else if IsOpenFor(rows[|rows| - 1], user) then Some(|rows| - 1)
      else None
  }

  /** Rows whose start is on or after weekStart (the `s_time >= week_start` filter). */
  predicate InWeek(s: Session, weekStart: DateTime)
    ensures ValidDateTime(s.start) && ValidDateTime(weekStart) ==> (InWeek(s, weekStart) <==> Instant(s.start) >= Instant(weekStart))
  {
    AtOrAfter(s.start, weekStart)
  }

  /** SELECT start_time, duration_seconds ... WHERE user_id=? AND end_time IS NOT NULL, in row order. */
  function ClosedOf(rows: seq<Session>, user: nat): (r: seq<Session>)
    ensures |r| <= |rows|
    ensures forall k :: 0 <= k < |r| ==> IsClosedFor(r[k], user)
    ensures forall j :: 0 <= j < |rows| && IsClosedFor(rows[j], user) ==> rows[j] in r
    ensures forall k :: 0 <= k < |r| ==> r[k] in rows
    ensures forall s :: multiset(r)[s] == if IsClosedFor(s, user) then multiset(rows)[s] else 0
  {
    if rows == [] then []
    else
      var last := rows[|rows| - 1];
      assert rows == rows[..|rows| - 1] + [last];
      ClosedOf(rows[..|rows| - 1], user) + if IsClosedFor(last, user) then [last] else []
  }

  /** What the accumulation loop adds up: the durations of the given rows that start in the week. */
  function WeekSum(rows: seq<Session>, weekStart: DateTime): int {
    if rows == [] then 0
    else
      var last := rows[|rows| - 1];
      WeekSum(rows[..|rows| - 1], weekStart) + if InWeek(last, weekStart) then last.duration else 0
  }

  /** The contribution of one table row to a user's weekly total. */
  function WeeklyContribution(s: Session, user: nat, weekStart: DateTime): int {
    if IsClosedFor(s, user) && InWeek(s, weekStart) then s.duration else 0
  }

  /** Reference definition of a user's weekly total, read off the whole table. */
  function UserWeekTotal(rows: seq<Session>, user: nat, weekStart: DateTime): int {
    if rows == [] then 0
    else UserWeekTotal(rows[..|rows| - 1], user, weekStart) + WeeklyContribution(rows[|rows| - 1], user, weekStart)
  }

  /** The user's all-time total over closed rows. */
  function UserAllTimeTotal(rows: seq<Session>, user: nat): int {
    if rows == [] then 0
    else
      var last := rows[|rows| - 1];
      UserAllTimeTotal(rows[..|rows| - 1], user) + if IsClosedFor(last, user) then last.duration else 0
  }

  /** The weekly_seconds loop of logout over the rows fetched by ClosedOf. */
  method WeeklySeconds(sessions: seq<Session>, weekStart: DateTime) returns (weeklySeconds: int)
    ensures weeklySeconds == WeekSum(sessions, weekStart)
  {
    weeklySeconds := 0;
    var i := 0;
    while i < |sessions|
      invariant 0 <= i <= |sessions|
      invariant weeklySeconds == WeekSum(sessions[..i], weekStart)
    {
      assert sessions[..i + 1][..i] == sessions[..i];
      if InWeek(sessions[i], weekStart) {
        weeklySeconds := weeklySeconds + sessions[i].duration;
      }
      i := i + 1;
    }
    assert sessions[..i] == sessions;
  }

  /** Logout's fetch of the user's closed rows followed by the weekly_seconds loop over them. */
  method WeeklyTotal(rows: seq<Session>, user: nat, weekStart: DateTime) returns (weeklySeconds: int)
    ensures weeklySeconds == UserWeekTotal(rows, user, weekStart)
  {
    var allSessions := ClosedOf(rows, user);
    weeklySeconds := WeeklySeconds(allSessions, weekStart);
    WeekSumOfClosedIsUserWeekTotal(rows, user, weekStart);
  }

  /** Summing the fetched rows gives exactly the user's closed in-week rows of the table. */
  lemma {:induction false} WeekSumOfClosedIsUserWeekTotal(rows: seq<Session>, user: nat, weekStart: DateTime)
    ensures WeekSum(ClosedOf(rows, user), weekStart) == UserWeekTotal(rows, user, weekStart)
  {
    if rows != [] {
      var init, last := rows[..|rows| - 1], rows[|rows| - 1];
      WeekSumOfClosedIsUserWeekTotal(init, user, weekStart);
      if IsClosedFor(last, user) {
        var c := ClosedOf(init, user) + [last];
        assert c[..|c| - 1] == ClosedOf(init, user);
        assert WeekSum(c, weekStart) == WeekSum(ClosedOf(init, user), weekStart) + WeeklyContribution(last, user, weekStart);
      } else {
        assert ClosedOf(rows, user) == ClosedOf(init, user);
      }
    }
  }

  /** The weekly total never looks at other users' rows or at open rows. */
  lemma {:induction false} WeeklyTotalDependsOnlyOnClosedRows(rows1: seq<Session>, rows2: seq<Session>, user: nat, weekStart: DateTime)
    requires ClosedOf(rows1, user) == ClosedOf(rows2, user)
    ensures UserWeekTotal(rows1, user, weekStart) == UserWeekTotal(rows2, user, weekStart)
  {
    WeekSumOfClosedIsUserWeekTotal(rows1, user, weekStart);
    WeekSumOfClosedIsUserWeekTotal(rows2, user, weekStart);
  }

  /** Replacing one row changes the total by the difference of the two rows' contributions. */
  lemma {:induction false} UserWeekTotalUpdate(rows: seq<Session>, i: nat, s: Session, user: nat, weekStart: DateTime)
    requires i < |rows|
    ensures UserWeekTotal(rows[i := s], user, weekStart)
            == UserWeekTotal(rows, user, weekStart) - WeeklyContribution(rows[i], user, weekStart) + WeeklyContribution(s, user, weekStart)
  {
    var n := |rows| - 1;
    var updated := rows[i := s];
    if i == n {
      assert updated[..n] == rows[..n];
    } else {
      assert updated[..n] == rows[..n][i := s];
      UserWeekTotalUpdate(rows[..n], i, s, user, weekStart);
    }
  }

  /** With non-negative durations the weekly total lies between 0 and the all-time total. */
  lemma {:induction false} WeeklyTotalBounded(rows: seq<Session>, user: nat, weekStart: DateTime)
    requires forall j :: 0 <= j < |rows| && IsClosedFor(rows[j], user) ==> rows[j].duration >= 0
    ensures 0 <= UserWeekTotal(rows, user, weekStart) <= UserAllTimeTotal(rows, user)
  {
    if rows != [] {
      WeeklyTotalBounded(rows[..|rows| - 1], user, weekStart);
    }
  }

  /**
   * For a table the handlers maintain, in which none of the user's sessions
   * ended before it started, 0 <= weekly total <= all-time total.
   */
  lemma WeeklyTotalBoundedForTable(rows: seq<Session>, user: nat, weekStart: DateTime)
    requires TableInvariant(rows)
    requires forall j :: 0 <= j < |rows| && IsClosedFor(rows[j], user) ==> Instant(rows[j].start) <= Instant(rows[j].end.value)
    ensures 0 <= UserWeekTotal(rows, user, weekStart) <= UserAllTimeTotal(rows, user)
  {
    forall j | 0 <= j < |rows| && IsClosedFor(rows[j], user)
      ensures rows[j].duration >= 0
    {
      assert WellFormedRow(rows[j]);
    }
    WeeklyTotalBounded(rows, user, weekStart);
  }

  /** The row logout writes back: end_time = now, duration = now - start_time. */
  function Close(s: Session, now: DateTime): (r: Session)
    requires WellFormedRow(s) && ValidDateTime(now)
    ensures WellFormedRow(r)
    ensures r.userId == s.userId && r.start == s.start && r.end == Some(now)
    ensures r.duration == Instant(now) - Instant(s.start)
  {
    Session(s.userId, s.start, Some(now), Instant(now) - Instant(s.start))
  }

  /** Closing the user's open row adds its duration to the weekly total exactly when it started in the week. */
  lemma {:induction false} CloseAddsSessionWhenInWeek(rows: seq<Session>, i: nat, now: DateTime, weekStart: DateTime)
    requires i < |rows| && rows[i].end.None? && WellFormedRow(rows[i]) && ValidDateTime(now)
    ensures UserWeekTotal(rows[i := Close(rows[i], now)], rows[i].userId, weekStart)
            == UserWeekTotal(rows, rows[i].userId, weekStart)
               + if InWeek(rows[i], weekStart) then Instant(now) - Instant(rows[i].start) else 0
  {
    UserWeekTotalUpdate(rows, i, Close(rows[i], now), rows[i].userId, weekStart);
  }

  /** The sessions table. */
  class SessionTable {
    var rows: seq<Session>

    ghost predicate Valid()
      reads this
    {
      TableInvariant(rows)
    }

    /** CREATE TABLE IF NOT EXISTS: the table holds whatever rows an earlier run left behind. */
    constructor (existing: seq<Session>)
      requires TableInvariant(existing)
      ensures Valid() && rows == existing
    {
      rows := existing;
    }

    /** The Login button. */
    method Login(user: nat, now: DateTime) returns (outcome: LoginOutcome)
      requires Valid() && ValidDateTime(now)
      modifies this
      ensures Valid()
      ensures outcome == AlreadyLoggedIn <==> HasOpen(old(rows), user)
      ensures outcome == AlreadyLoggedIn ==> rows == old(rows)
      ensures outcome == LoggedIn ==> rows == old(rows) + [Session(user, now, None, 0)]
      ensures HasOpen(rows, user)
    {
      if FindOpen(rows, user).Some? {
        return AlreadyLoggedIn;
      }
      rows := rows + [Session(user, now, None, 0)];
      outcome := LoggedIn;
      assert rows[|rows| - 1] == Session(user, now, None, 0);
    }

    /** The Logout button. */
    method Logout(user: nat, now: DateTime) returns (outcome: LogoutOutcome)
      requires Valid() && ValidDateTime(now)
      modifies this
      ensures Valid()
      ensures outcome == NotLoggedIn <==> !HasOpen(old(rows), user)
      ensures outcome == NotLoggedIn ==> rows == old(rows)
      ensures outcome != NotLoggedIn ==>
                var i := FindOpen(old(rows), user).value;
                && rows == old(rows)[i := Close(old(rows)[i], now)]
                && outcome.duration == Instant(now) - Instant(old(rows)[i].start)
      ensures !HasOpen(rows, user)
      ensures outcome.WeekStartOutOfRange? <==> outcome != NotLoggedIn && GetWeekStart(now).None?
      ensures outcome.LoggedOut? ==>
                var i := FindOpen(old(rows), user).value;
                var ws := GetWeekStart(now).value;
                && outcome.weeklyTotal == UserWeekTotal(rows, user, ws)
                && outcome.weeklyTotal == UserWeekTotal(old(rows), user, ws)
                                           + if InWeek(old(rows)[i], ws) then outcome.duration else 0
    {
      var found := FindOpen(rows, user);
      if found.None? {
        return NotLoggedIn;
      }
      var rowid := found.value;
      var row := rows[rowid];
      assert WellFormedRow(row);
      var duration := Instant(now) - Instant(row.start);
      ghost var before := rows;
      rows := rows[rowid := Close(row, now)];
      assert forall j :: 0 <= j < |rows| && j != rowid ==> rows[j] == before[j];
      assert forall j :: 0 <= j < |before| && j != rowid ==> !IsOpenFor(before[j], user);

      var weekStart := GetWeekStart(now);
      if weekStart.None? {
        return WeekStartOutOfRange(duration);
      }
      var weeklySeconds := WeeklyTotal(rows, user, weekStart.value);
      CloseAddsSessionWhenInWeek(before, rowid, now, weekStart.value);
      outcome := LoggedOut(duration, weeklySeconds);
    }
  }
}
