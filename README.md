# Time-tracking bot: week bucketing and session ledger

This project models the core of a chat bot that lets members press Login and
Logout buttons to record work sessions in a `sessions` table, and that shows,
at logout, the session's duration and the member's total for the current week.
Weeks start at midnight on Friday (`WEEK_START_DAY = 4`, Monday being 0).

- `wrappers.dfy` — `Option`, used for SQL `NULL` and for failing operations.
- `week.dfy` (module `WeekBucket`) — `get_week_start`. A naive local datetime
  is a day ordinal (as `date.toordinal()`, valid from 1 to 3652059) and the
  microseconds since midnight. `weekday()` is `(ordinal + 6) % 7`. Dafny's `%`
  is Euclidean. Python's `%` floors. Both agree for the positive modulus 7 used
  here.
- `ledger.dfy` (module `SessionLedger`) — the table as the class
  `SessionTable` holding a sequence of rows. The methods `Login` and `Logout`
  are the two button handlers. The method `WeeklySeconds` is logout's
  accumulation loop. Recursive specification functions give the weekly and
  all-time totals, and the lemmas relate them.
- `scenarios.dfy` (module `Scenarios`) — client methods showing what callers
  can conclude from the handlers' contracts alone.

Timestamps are passed in as parameters instead of being read from the clock.
Durations are integer microseconds. The source uses float seconds.

The invariant kept by both handlers is `TableInvariant`. It says that each
user has at most one open row (`end_time IS NULL`). It also says that every
open row has duration 0 and every closed row has duration `end - start`.

`get_week_start` subtracts up to six days. For the first four days
representable in Python (0001-01-01 to 0001-01-04), the result falls before
`date.min` and Python raises `OverflowError`. The model returns `None` there. In
`logout` this happens after the row has been updated and committed. The
outcome `WeekStartOutOfRange` therefore comes with the row already closed.

## Model

| member | source | states |
|---|---|---|
| `WeekBucket.Weekday` | bot.py:30 | `dt.weekday()` is in 0 to 6, Monday being 0 |
| `WeekBucket.WeekdayAdvancesDaily` | bot.py:30 | the weekday goes up by one each day and wraps from Sunday (6) to Monday (0); day 1 (0001-01-01) is a Monday |
| `WeekBucket.AtOrAfter` | bot.py:81 | Python's field-by-field `>=` on valid datetimes agrees with the order of their instants |
| `WeekBucket.Midnight` | bot.py:31 | `replace(hour=0, minute=0, second=0, microsecond=0)` keeps the day, zeroes all four time fields, and goes back less than one day |
| `WeekBucket.MinusDays` | bot.py:31 | subtracting `timedelta(days=k)` fails exactly when the result would fall before day 1; otherwise it keeps the time of day and moves the instant back by k days |
| `WeekBucket.GetWeekStart` | bot.py:27-32 | fails exactly for ordinals below 5 (the first Friday); otherwise gives a valid midnight on a Friday, at or before dt and less than 7 days before it; on a Friday it gives that day's midnight |
| `WeekBucket.WeekStartsWithinAWeekAreEqual` | bot.py:30-31 | two Friday midnights less than a week apart are the same datetime |
| `WeekBucket.GetWeekStartCharacterised` | bot.py:27-32 | the result is w if and only if w is a Friday midnight with w <= dt < w + 7 days |
| `WeekBucket.GetWeekStartIsLatest` | bot.py:28-31 | every Friday midnight at or before dt is at or before the result: it is the most recent one |
| `WeekBucket.GetWeekStartIdempotent` | bot.py:27-32 | applying it to its own result gives the same result |
| `WeekBucket.GetWeekStartMonotonic` | bot.py:27-32 | a later datetime never has an earlier week start |
| `SessionLedger.FindOpen` | bot.py:58-61 | the lookup of the open row finds the first row of the user whose end time is NULL, and finds none exactly when the user has no open row |
| `SessionLedger.ClosedOf` | bot.py:75-76 | the fetched rows are exactly the user's rows whose end time is set: every one belongs to the user and is closed, and each such row of the table is fetched as many times as it occurs in the table |
| `SessionLedger.InWeek` | bot.py:81 | the filter `s_time >= week_start` holds exactly when the session's start instant is at or after the week start |
| `SessionLedger.WeeklySeconds` | bot.py:78-82 | the loop's total is the sum of the durations of the fetched rows that start on or after the week start |
| `SessionLedger.WeeklyTotal` | bot.py:75-82 | fetching the user's closed rows and running the loop over them yields the reference total over the whole table of the user's closed rows starting in the week |
| `SessionLedger.WeekSumOfClosedIsUserWeekTotal` | bot.py:73-82 | summing the fetched rows equals the reference total over the whole table of the user's closed rows starting in the week |
| `SessionLedger.WeeklyTotalDependsOnlyOnClosedRows` | bot.py:75-82 | two tables with the same closed rows for the user give the same weekly total, so other users' rows and open rows never count |
| `SessionLedger.UserWeekTotalUpdate` | bot.py:69-82 | updating one row changes the weekly total by exactly the new row's contribution minus the old row's |
| `SessionLedger.WeeklyTotalBounded` | bot.py:75-82 | if the user's closed durations are non-negative, then 0 <= weekly total <= all-time closed total |
| `SessionLedger.WeeklyTotalBoundedForTable` | bot.py:65-82 | for a table satisfying the invariant the handlers keep, if none of the user's sessions ended before it started, then 0 <= weekly total <= all-time closed total |
| `SessionLedger.Close` | bot.py:65-69 | the updated row keeps user and start, gets end = now and duration = now - start, and still satisfies the row invariant |
| `SessionLedger.CloseAddsSessionWhenInWeek` | bot.py:65-82 | closing the user's open row raises the weekly total by its duration if it started on or after the week start, and leaves the total unchanged otherwise |
| `SessionLedger.SessionTable.constructor` | bot.py:19-20 | opening the table keeps the rows already in it, which satisfy the invariant |
| `SessionLedger.SessionTable.Login` | bot.py:39-51 | if an open row exists: "already logged in" and the table is unchanged; otherwise exactly one row `(user, now, NULL, 0)` is appended; the at-most-one-open invariant is preserved and the user is then logged in |
| `SessionLedger.SessionTable.Logout` | bot.py:54-86 | with no open row: "not logged in" and the table is unchanged; otherwise only the open row changes, to end = now and duration = now - start; afterwards the user has no open row; the weekly total equals the reference total of the new table and equals the old total plus the session exactly when it started in the week |
| `Scenarios.LoginTwice` | bot.py:44-49 | a second Login without an intervening Logout is refused |
| `Scenarios.LogoutWithoutLogin` | bot.py:58-63 | Logout with no open session is refused and leaves the table as it was |
| `Scenarios.FirstSession` | bot.py:44-82 | on an empty table, login then logout stores one row with duration end - start; the weekly total shown is that duration if the start is in the logout's week, and 0 otherwise |
| `Scenarios.OvernightSession` | bot.py:73-82 | a session from Thursday 22:00 to Friday 01:00 shows a 3-hour duration and a weekly total of 0, because the week is chosen by the logout time and the session started before it |

## Left out

- The chat-platform client: intents, the persistent view, `on_ready`, the `!setup` command, and all message and embed output (bot.py:1-2, 11-14, 34-38, 46, 51, 62, 86, 88-96). These belong to an external UI library and its async event loop. The outcomes `AlreadyLoggedIn`, `NotLoggedIn` and `LoggedOut` stand for the messages sent.
- SQLite: the connection, the cursor, `CREATE TABLE` and `commit` (bot.py:17-21, 50, 70). The table is an in-memory sequence, and durability is not modelled. Row order in the sequence stands for rowid order.
- ISO-8601 storage (`isoformat` / `fromisoformat`, bot.py:41, 66, 69, 80). Timestamps are stored directly, on the assumption that the string round trip is exact.
- `datetime.now()` (bot.py:41, 56). The time is a parameter. The model does not require logout time >= login time, because the wall clock does not guarantee it. Lemmas that need non-negative durations take that as a hypothesis.
- Floating point: `total_seconds()`, the division by 3600 and the `:.2f` formatting (bot.py:67, 84, 86). Durations and totals are exact integer microseconds.
- Token and `.env` loading and the startup check (bot.py:8-9, 98-102). This is configuration and I/O.
- ecosystem.config.js: process-manager deployment settings, which contain no logic.
- The all-time leaderboard and the per-week breakdown. This source computes neither: it shows only the logging-out user's current-week total. `UserAllTimeTotal` exists only to bound the weekly total.
- Time zones. Datetimes are naive and local, as in the source.
