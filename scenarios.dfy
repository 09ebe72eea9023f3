/**
 * Client code: what a caller can conclude about sequences of button presses
 * from the contracts of SessionTable alone.
 */
module Scenarios {
  import opened Wrappers
  import opened WeekBucket
  import opened SessionLedger

  /** Pressing Login twice without a Logout in between: the second press is refused. */
  method LoginTwice(existing: seq<Session>, user: nat, t1: DateTime, t2: DateTime)
    returns (first: LoginOutcome, second: LoginOutcome)
    requires TableInvariant(existing) && !HasOpen(existing, user)
    requires ValidDateTime(t1) && ValidDateTime(t2)
    ensures first == LoggedIn && second == AlreadyLoggedIn
  {
    var table := new SessionTable(existing);
    first := table.Login(user, t1);
    second := table.Login(user, t2);
  }

  /** Pressing Logout without an open session is refused and changes nothing. */
  method LogoutWithoutLogin(existing: seq<Session>, user: nat, now: DateTime)
    returns (outcome: LogoutOutcome, after: seq<Session>)
    requires TableInvariant(existing) && !HasOpen(existing, user)
    requires ValidDateTime(now)
    ensures outcome == NotLoggedIn && after == existing
  {
    var table := new SessionTable(existing);
    outcome := table.Logout(user, now);
    after := table.rows;
  }

  /**
   * A first session on a fresh table: its stored duration is end minus start,
   * and the weekly total shown is that duration exactly when the session
   * started in the week that contains the logout.
   */
  method FirstSession(user: nat, t0: DateTime, t1: DateTime)
    returns (login: LoginOutcome, logout: LogoutOutcome, after: seq<Session>)
    requires ValidDateTime(t0) && ValidDateTime(t1)
    requires t1.ordinal >= FirstWeekStartOrdinal
    ensures login == LoggedIn
    ensures after == [Session(user, t0, Some(t1), Instant(t1) - Instant(t0))]
    ensures logout == LoggedOut(Instant(t1) - Instant(t0),
                                if Instant(t0) >= Instant(GetWeekStart(t1).value) then Instant(t1) - Instant(t0) else 0)
  {
    var table := new SessionTable([]);
    login := table.Login(user, t0);
    assert FindOpen(table.rows, user) == Some(0);
    logout := table.Logout(user, t1);
    after := table.rows;
  }

  /**
   * Login on Thursday 2024-01-04 at 22:00 and logout on Friday 2024-01-05 at
   * 01:00: the three-hour session started before the Friday week start, so
   * the weekly total shown at logout does not include it.
   */
  method OvernightSession(user: nat) returns (outcome: LogoutOutcome)
    ensures outcome == LoggedOut(3 * MicrosPerHour, 0)
  {
    var thursday := DateTime(738_889, 22 * MicrosPerHour);
    var friday := DateTime(738_890, 1 * MicrosPerHour);
    assert Weekday(friday) == WeekStartDay;
    var table := new SessionTable([]);
    var _ := table.Login(user, thursday);
    assert FindOpen(table.rows, user) == Some(0);
    outcome := table.Logout(user, friday);
  }
}
