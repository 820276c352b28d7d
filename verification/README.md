# WorktimeCompose time-tracking engine in Dafny

This project models the core of WorktimeCompose, an Android app for
tracking working time, and proves properties of that model. The app
records work sessions per project, with pause segments and an audit log
of manual edits. The model covers:

- **Store** (`store.dfy`, module `Store`): the four Room entities
  (`Project`, `WorkSession`, `PauseSegment`, `SessionEdit`) as datatypes.
  A `Tables` value holds their rows and the auto-increment counters.
  `Store.AppDb` is a class whose DAO methods (`@Insert`, `@Update`,
  `@Delete`, `archive`/`unarchive`) change those tables in place. Each
  method is proved to produce exactly a pure step function of the old
  state. The `@Query` SELECTs are pure functions over `Tables`:
  `getRunning`, `getOpenPause`, `effectiveForSession`,
  `effectiveSumBetween`, `effectiveSumForProject`, `getActive`/`getAll`,
  `allForSession`, `listForSession` and `sessionsForProject`. The
  cascading delete of a session is modelled as a step function too.
- **Lifecycle** (`repository.dfy`, module `Repository`): the class
  `TimeRepository` with `startSession`, `startSessionAt`, `endSession`,
  `togglePause` and `switchProject`, and the `effectiveToday` and
  `effectiveWeek` windows. The lemmas cover the guards, the exact row
  changes and the invariant that at most one session is running. They
  also prove that at most one pause is open, and that only `endTs` of a
  session ever changes.
- **Calendar arithmetic** (`civil.dfy`, `calendar.dfy`, `time_utils.dfy`):
  - A day is 86 400 000 ms in UTC, and day 0 (1970-01-01) is a Thursday.
  - Module `CivilDate` converts civil dates to day numbers and back.
  - The class `UtcCalendar.Calendar` stands for `java.util.Calendar`, with
    the field setters and `add` that the code uses.
  - Module `TimeUtils` holds `msToHHMM`, `dayStart`, `weekBounds`,
    `roundDuration`, `easterSunday`, `busUndBettag` and `isHolidayDE`.
    The functions that step a `Calendar` are methods, and each is proved
    equal to a pure function of its inputs.
- **Presence trigger** (`trigger.dfy`, module `Trigger`): the
  notification decision of `TriggerWorker.doWork`,
  `parseStdStartToday` and the SSID comparison of `isOnWifi`. The
  decision is a pure function from the settings, the running flag, the
  current SSID and the clock to a set of notifications.
- **Session editor** (`editor.dfy`, module `Editor`):
  - `pickTime` and the audited callbacks that edit a start or an end,
    edit a pause, delete a pause or add a pause.
  - The class `SessionEditor` holds the session, the in-memory pause list
    and the database.
- **UI helpers**:
  - `week_calendar.dfy`: the 42-day month grid, the week window of each
    row and the traffic-light band.
  - `projects.dfy`: the archive tabs and the archive toggle, the day
    grouping and day totals of the project detail, and the new-project
    input.
  - `settings.dfy`: `normalizeTimeInput`, the field edits and the clamps
    applied on save.
- **Shared helpers**:
  - `text.dfy`: Kotlin's truncating `/` and `%`, decimal text,
    `toIntOrNull`, `trim`, `replace`, `take`/`drop` and padding.
  - `seqs.dfy`: `filter`, `remove` and an insertion sort that stands for
    `ORDER BY`.
  - `wrappers.dfy`: `Option`.

The model follows the code as written. In particular:

- `endSession` and `switchProject` leave an open pause open.
- The effective duration is not clamped at zero.
- `effectiveSumBetween` drops every session that crosses a window bound.
- `weekBounds(t, false)` starts weeks on Saturday.
- `easterSunday` is six days early for March dates.
- `busUndBettag` lands on 10–16 November, a week before the Wednesday
  that the comment at `TimeUtils.kt:76` names.

Each of these is stated as a contract or a lemma. For Easter and Buß- und
Bettag, the lemma compares the code against the intended definition.

Two of these may surprise a reader, and the model follows the code in
both. One might expect ending a session to close its open pause, but
`endSession` only sets `endTs` (`TimeRepository.kt:41-44`). One might
also expect the window sums to clip sessions to the window, but
`effectiveSumBetween` keeps only the sessions wholly inside it
(`AppDb.kt:100`).

## Model

| member | source | states |
|---|---|---|
| Text.Clamp | app/src/main/java/com/example/worktime/SettingsScreen.kt:230-231 | `coerceIn(lo, hi)`: the result lies in `lo..hi`, equals `x` inside the range and the nearer bound outside it |
| Text.Quot | app/src/main/java/com/example/worktime/TimeUtils.kt:17-18 | Kotlin's `/` on integers truncates toward zero: for `a >= 0` the quotient is the floor, for `a < 0` it is the ceiling |
| Text.Rem | app/src/main/java/com/example/worktime/TimeUtils.kt:18 | Kotlin's `%` takes the sign of the dividend: `a == Quot(a, b) * b + r` with `0 <= r < b` for `a >= 0` and `-b < r <= 0` for `a < 0` |
| Text.DigitChar | app/src/main/java/com/example/worktime/TimeUtils.kt:19 | the digit character of `d < 10` reads back as `d` |
| Text.Decimal | app/src/main/java/com/example/worktime/SessionEditorScreen.kt:70-71 | the decimal text of a natural number is all digits, without a leading zero when it has more than one digit |
| Text.DecimalRoundTrip | app/src/main/java/com/example/worktime/SessionEditorScreen.kt:70-71 | reading back the decimal text of `n` gives `n` |
| Text.LongToString | app/src/main/java/com/example/worktime/SessionEditorScreen.kt:70-71 | `Long.toString()`: a non-negative value prints as digits whose value is the number; a negative one as `-` followed by the digits of its magnitude |
| Text.Format02 | app/src/main/java/com/example/worktime/TimeUtils.kt:19 | `%02d`: a value in 0..99 prints as exactly two digits with that value; any non-negative value prints as at least two digits with that value |
| Text.ToIntOrNull | app/src/main/java/com/example/worktime/SettingsScreen.kt:103 | `toIntOrNull()`: a value exactly for a non-empty run of ASCII digits, optionally after one `+` or `-`, whose value fits in 32 bits; that value (negated after `-`); null for everything else, the empty string included |
| Text.TrimStart | app/src/main/java/com/example/worktime/ProjectsScreen.kt:176 | the result is a suffix of the input that does not start with whitespace, and everything dropped is whitespace |
| Text.TrimEnd | app/src/main/java/com/example/worktime/ProjectsScreen.kt:176 | the result is a prefix of the input that does not end with whitespace, and everything dropped is whitespace |
| Text.Trim | app/src/main/java/com/example/worktime/ProjectsScreen.kt:176 | `trim()` is the infix of the input left after dropping a whitespace prefix and a whitespace suffix; it neither starts nor ends with whitespace, and is empty exactly when the input is blank |
| Text.RemoveAll | app/src/main/java/com/example/worktime/SettingsScreen.kt:226 | `replace(":", "")`: the result holds exactly the input's characters other than the removed one, and is no longer than the input |
| Text.Take | app/src/main/java/com/example/worktime/SettingsScreen.kt:228-229 | `take(n)` is the prefix of length min(n, length of s) |
| Text.Drop | app/src/main/java/com/example/worktime/SettingsScreen.kt:229 | `drop(n)` is as long as the text minus `n`, or empty when `n` reaches its length, and `take(n)` followed by `drop(n)` gives the text back |
| Text.PadStart | app/src/main/java/com/example/worktime/SettingsScreen.kt:228 | `padStart(n, c)` prefixes copies of `c` up to length `n` and keeps the text |
| Text.PadEnd | app/src/main/java/com/example/worktime/SettingsScreen.kt:229 | `padEnd(n, c)` appends copies of `c` up to length `n` and keeps the text |
| CivilDate.YearOfDay | app/src/main/java/com/example/worktime/TimeUtils.kt:55 | `get(Calendar.YEAR)`: the year whose 1 January is on or before the day and whose next 1 January is after it |
| CivilDate.YearOfDayUnique | app/src/main/java/com/example/worktime/TimeUtils.kt:55 | that year is the only one containing the day |
| CivilDate.DateOfDay | app/src/main/java/com/example/worktime/WeekSumCalendar.kt:48 | day number to civil date: a valid date whose day number is the input, in the year `YearOfDay` gives |
| CivilDate.DateRoundTrip | app/src/main/java/com/example/worktime/WeekSumCalendar.kt:48 | converting a valid date to its day number and back gives the same date |
| CivilDate.Weekday | app/src/main/java/com/example/worktime/TimeUtils.kt:30 | the weekday of a day number is in 0..6, with day 0 (1970-01-01) a Thursday |
| CivilDate.WeekdayUnique | app/src/main/java/com/example/worktime/TimeUtils.kt:102 | two days less than a week apart with the same weekday are the same day |
| CivilDate.WeekdayShift | app/src/main/java/com/example/worktime/TimeUtils.kt:32 | going back `k` days moves the weekday back by `k` modulo 7 |
| UtcCalendar.MillisOfDay | app/src/main/java/com/example/worktime/TimeUtils.kt:24 | an instant's milliseconds since midnight split into hour 0..23, minute, second and millisecond, and recombine to the same value |
| UtcCalendar.Calendar.DayOfWeek | app/src/main/java/com/example/worktime/TimeUtils.kt:30 | `get(DAY_OF_WEEK)` is in 1..7 (Sunday = 1) |
| UtcCalendar.Calendar.At | app/src/main/java/com/example/worktime/TimeUtils.kt:23 | `timeInMillis = t`: the calendar holds `t`, on day `t / 86 400 000` |
| UtcCalendar.Calendar.Cleared | app/src/main/java/com/example/worktime/TimeUtils.kt:57 | `clear()` resets the calendar to the epoch |
| UtcCalendar.Calendar.SetHourOfDay | app/src/main/java/com/example/worktime/TimeUtils.kt:24 | `set(HOUR_OF_DAY, h)` changes the hour only |
| UtcCalendar.Calendar.SetMinute | app/src/main/java/com/example/worktime/TimeUtils.kt:24 | `set(MINUTE, m)` changes the minute only |
| UtcCalendar.Calendar.SetSecond | app/src/main/java/com/example/worktime/TimeUtils.kt:24 | `set(SECOND, s)` changes the second only |
| UtcCalendar.Calendar.SetMillisecond | app/src/main/java/com/example/worktime/TimeUtils.kt:24 | `set(MILLISECOND, ms)` changes the millisecond only |
| UtcCalendar.Calendar.SetDateTime | app/src/main/java/com/example/worktime/TimeUtils.kt:57 | `set(y, m-1, d, 0, 0, 0)` moves to that date at 00:00:00 and keeps the millisecond |
| UtcCalendar.Calendar.AddDays | app/src/main/java/com/example/worktime/TimeUtils.kt:32 | `add(DAY_OF_MONTH, k)` moves the instant by exactly `k` days and keeps the time of day |
| TimeUtils.MsToHHMM | app/src/main/java/com/example/worktime/TimeUtils.kt:16-20 | for `ms >= 0` the text is `h:mm` with at least two hour digits, minutes below 60 and `h * 60 + m == ms / 60000` |
| TimeUtils.Midnight | app/src/main/java/com/example/worktime/TimeUtils.kt:22-26 | `dayStart(t) <= t < dayStart(t) + 86 400 000`, and it is a multiple of the day length on the same day as `t` |
| TimeUtils.MidnightIdempotent | app/src/main/java/com/example/worktime/TimeUtils.kt:22-26 | `dayStart(dayStart(t)) == dayStart(t)` |
| TimeUtils.MidnightWithin | app/src/main/java/com/example/worktime/TimeUtils.kt:22-26 | every instant of a day has that day's midnight as its day start |
| TimeUtils.WeekWindow | app/src/main/java/com/example/worktime/TimeUtils.kt:28-36 | the week window starts at a midnight on or before `t`, contains `t`, spans 7 days, and starts on a Monday with `weekStartMonday` and on a Saturday without it |
| TimeUtils.DayStart | app/src/main/java/com/example/worktime/TimeUtils.kt:22-26 | the calendar steps (set hour, minute, second, millisecond to 0) compute exactly `Midnight(ts)` |
| TimeUtils.WeekBounds | app/src/main/java/com/example/worktime/TimeUtils.kt:28-36 | the calendar steps compute exactly `WeekWindow(dayMillis, weekStartMonday)` |
| TimeUtils.MondayWeek | app/src/main/java/com/example/worktime/TimeUtils.kt:28-36 | at Monday 00:00 the Monday-first week starts at that instant itself |
| TimeUtils.HalfEvenQuotient | app/src/main/java/com/example/worktime/TimeUtils.kt:44 | `round(a / u)`: the quotient is within half a unit of `a / u`, and an exact half goes to the even quotient |
| TimeUtils.RoundDown | app/src/main/java/com/example/worktime/TimeUtils.kt:45 | `floor`: a multiple of the unit, at most `ms` and less than one unit below it |
| TimeUtils.RoundUp | app/src/main/java/com/example/worktime/TimeUtils.kt:46 | `ceil`: a multiple of the unit, at least `ms` and less than one unit above it |
| TimeUtils.RoundNearest | app/src/main/java/com/example/worktime/TimeUtils.kt:44 | a multiple of the unit within half a unit of `ms`; at an exact half the quotient is even |
| TimeUtils.RoundDuration | app/src/main/java/com/example/worktime/TimeUtils.kt:39-50 | `ms` unchanged for `minutes <= 0`, mode "NONE" or an unknown mode; DOWN, UP and NEAREST give the multiples of `minutes * 60000` described above; a non-negative input stays non-negative |
| TimeUtils.RoundingExamples | app/src/main/java/com/example/worktime/TimeUtils.kt:39-50 | (120000, 5, DOWN) gives 0, (299999, 5, UP) gives 300000, and NEAREST sends the halves 150000 and 450000 to the even multiples 0 and 600000 |
| TimeUtils.EasterMonthDay | app/src/main/java/com/example/worktime/TimeUtils.kt:82-95 | the formula yields month 3 or 4 and a day in 1..25, at least 16 in March |
| TimeUtils.EasterSunday | app/src/main/java/com/example/worktime/TimeUtils.kt:82-97 | `easterSunday(year)` is a midnight between 16 March and 25 April of that year |
| TimeUtils.EasterAgainstGregorian | app/src/main/java/com/example/worktime/TimeUtils.kt:94-95 | against the textbook Gregorian computation: same month always, same day in April, and 6 days early in March |
| TimeUtils.Easter2025 | app/src/main/java/com/example/worktime/TimeUtils.kt:94-95 | 2025 gives 20 April, which is correct |
| TimeUtils.Easter2024 | app/src/main/java/com/example/worktime/TimeUtils.kt:94-95 | 2024 gives 25 March, where Gregorian Easter is 31 March |
| TimeUtils.BusUndBettag | app/src/main/java/com/example/worktime/TimeUtils.kt:100-105 | the loop from 23 November back to a Wednesday, then minus 7 days, computes `BussUndBettagDay(year)` at midnight |
| TimeUtils.BussUndBettagDay | app/src/main/java/com/example/worktime/TimeUtils.kt:100-105 | the computed day is a Wednesday between 10 and 16 November of that year |
| TimeUtils.BussUndBettag2024 | app/src/main/java/com/example/worktime/TimeUtils.kt:76-77 | for 2024 the code gives 13 November, while the comment's Wednesday before 23 November is the 20th |
| TimeUtils.HolidayWholeDay | app/src/main/java/com/example/worktime/TimeUtils.kt:61 | any instant of a day decides the same as its midnight |
| TimeUtils.IsHolidayDE | app/src/main/java/com/example/worktime/TimeUtils.kt:53-80 | every national fixed or Easter-based date is a holiday; a day is a holiday only on a national date or on one of the year's regional dates |
| TimeUtils.DecideRegional | app/src/main/java/com/example/worktime/TimeUtils.kt:68-77 | on each regional date the day is a holiday exactly for the listed state codes, given that the dates differ from each other and from the national ones |
| TimeUtils.EasterWindow | app/src/main/java/com/example/worktime/TimeUtils.kt:82-97 | the computed Easter lies between 16 March and 25 April |
| TimeUtils.DatesSeparated | app/src/main/java/com/example/worktime/TimeUtils.kt:64-77 | in every year the regional dates differ from each other and from the national ones |
| TimeUtils.YearOfDate | app/src/main/java/com/example/worktime/TimeUtils.kt:55 | an instant on date `d` is in year `d.year` |
| TimeUtils.NationalFixedHoliday | app/src/main/java/com/example/worktime/TimeUtils.kt:64 | 1 Jan, 1 May, 3 Oct, 25 and 26 Dec are holidays for every state code |
| TimeUtils.NationalEasterHoliday | app/src/main/java/com/example/worktime/TimeUtils.kt:65 | Easter -2, +1, +39 and +50 days are holidays for every state code |
| TimeUtils.OnDate | app/src/main/java/com/example/worktime/TimeUtils.kt:53-80 | on a valid date the decision is taken against that year's holiday dates |
| TimeUtils.EpiphanyHoliday | app/src/main/java/com/example/worktime/TimeUtils.kt:68 | 6 January is a holiday exactly for BY, BW, ST |
| TimeUtils.CorpusChristi | app/src/main/java/com/example/worktime/TimeUtils.kt:69 | Easter + 60 is a holiday exactly for BW, BY, HE, NW, RP, SL |
| TimeUtils.AllSaintsHoliday | app/src/main/java/com/example/worktime/TimeUtils.kt:70 | 1 November is a holiday exactly for BW, BY, NW, RP, SL |
| TimeUtils.ReformationDayHoliday | app/src/main/java/com/example/worktime/TimeUtils.kt:71 | 31 October is a holiday exactly for BB, HB, HH, MV, NI, SN, ST, SH, TH |
| TimeUtils.AssumptionHoliday | app/src/main/java/com/example/worktime/TimeUtils.kt:72 | 15 August is a holiday exactly for BY, SL |
| TimeUtils.WomensDayHoliday | app/src/main/java/com/example/worktime/TimeUtils.kt:73 | 8 March is a holiday exactly for BE |
| TimeUtils.ChildrensDayHoliday | app/src/main/java/com/example/worktime/TimeUtils.kt:74 | 20 September is a holiday exactly for TH |
| TimeUtils.BussUndBettagOnlySaxony | app/src/main/java/com/example/worktime/TimeUtils.kt:77 | Buß- und Bettag is a holiday exactly for SN |
| Seqs.Filter | app/src/main/java/com/example/worktime/ProjectsScreen.kt:45 | `filter` keeps exactly the elements satisfying the predicate |
| Seqs.FilterSorted | app/src/main/java/com/example/worktime/AppDb.kt:62 | filtering a sorted list keeps it sorted |
| Seqs.RemoveFirst | app/src/main/java/com/example/worktime/SessionEditorScreen.kt:164 | `MutableList.remove(x)` drops one occurrence of a present element and changes nothing otherwise |
| Seqs.IndexOf | app/src/main/java/com/example/worktime/SessionEditorScreen.kt:164 | the index of the first element equal to `x`: it holds `x`, and no earlier element does |
| Seqs.RemoveFirstAt | app/src/main/java/com/example/worktime/SessionEditorScreen.kt:164 | `remove(x)` drops exactly the first occurrence of `x` and keeps the elements before and after it in order |
| Seqs.InsertionSort | app/src/main/java/com/example/worktime/AppDb.kt:115 | `ORDER BY`: the result is sorted by the order and is a permutation of the rows |
| Store.SessionDeleted | app/src/main/java/com/example/worktime/AppDb.kt:28-44 | deleting a session removes it and, by the cascades, exactly its pauses and audit rows; projects stay |
| Store.SessionDeletedWellFormed | app/src/main/java/com/example/worktime/AppDb.kt:28-44 | after the cascade every remaining pause and audit row still refers to an existing session |
| Store.ArchivedSet | app/src/main/java/com/example/worktime/AppDb.kt:59-60 | `archive`/`unarchive` set `isArchived` on the rows with that id and change nothing else |
| Store.PauseDeleted | app/src/main/java/com/example/worktime/AppDb.kt:131 | `@Delete` removes exactly the rows with the pause's id and leaves the other tables |
| Store.ProjectInserted | app/src/main/java/com/example/worktime/AppDb.kt:57 | the project counter goes up by one, the project is appended under the new id after the old rows, and nothing else changes |
| Store.ProjectUpdated | app/src/main/java/com/example/worktime/AppDb.kt:58 | each project row with that id is replaced by the argument, the other rows and tables stay as they are |
| Store.SessionInserted | app/src/main/java/com/example/worktime/AppDb.kt:74 | the session counter goes up by one, the session is appended under the new id after the old rows, and nothing else changes |
| Store.SessionUpdated | app/src/main/java/com/example/worktime/AppDb.kt:75 | each session row with that id is replaced by the argument, the other rows and tables stay as they are |
| Store.PauseInserted | app/src/main/java/com/example/worktime/AppDb.kt:129 | the pause counter goes up by one, the pause is appended under the new id after the old rows, and nothing else changes |
| Store.PauseUpdated | app/src/main/java/com/example/worktime/AppDb.kt:130 | each pause row with that id is replaced by the argument, the other rows and tables stay as they are |
| Store.PauseUpdatedWellFormed | app/src/main/java/com/example/worktime/AppDb.kt:130 | updating a pause keeps every foreign key valid, and an update of an id with no row changes nothing |
| Store.EditInserted | app/src/main/java/com/example/worktime/AppDb.kt:138 | the audit counter goes up by one, the audit row is appended under the new id after the old rows, and nothing else changes |
| Store.GetRunning | app/src/main/java/com/example/worktime/AppDb.kt:77 | `getRunning` returns some session with `endTs == null`, and null exactly when none exists |
| Store.GetById | app/src/main/java/com/example/worktime/AppDb.kt:76 | `getById` returns a session with that id, and null exactly when there is none |
| Store.FindOwnId | app/src/main/java/com/example/worktime/AppDb.kt:76 | with increasing ids, looking up a stored session's id finds that session |
| Store.GetProject | app/src/main/java/com/example/worktime/AppDb.kt:68-69 | `getByIdSync` returns a project with that id, and null exactly when there is none |
| Store.GetOpenPause | app/src/main/java/com/example/worktime/AppDb.kt:132 | `getOpenPause(sid)` returns an open pause of `sid`, and null exactly when all its pauses are closed |
| Store.OpenPausesNone | app/src/main/java/com/example/worktime/AppDb.kt:86 | the count of open pauses of a session is zero exactly when all are closed |
| Store.PausedTimeShift | app/src/main/java/com/example/worktime/AppDb.kt:86 | advancing `now` by `d` adds `d` per open pause to the paused time |
| Store.EffectiveShift | app/src/main/java/com/example/worktime/AppDb.kt:85-87 | advancing `now` by `d` adds `d` for a running session and subtracts `d` per open pause |
| Store.Effective | app/src/main/java/com/example/worktime/AppDb.kt:85-87 | a session without pauses has as effective time its end (or `now` while running) minus its start |
| Store.EffectiveOverTime | app/src/main/java/com/example/worktime/AppDb.kt:85-87 | as `now` advances the effective time is constant for an ended session with closed pauses, rises one-for-one while running without a pause, is constant while running with one open pause, and falls for an ended session with an open pause |
| Store.EffectiveNotClamped | app/src/main/java/com/example/worktime/AppDb.kt:85-87 | a 10-minute session with a 15-minute pause has effective time -5 minutes: nothing clamps at 0 |
| Store.EffectiveForSession | app/src/main/java/com/example/worktime/AppDb.kt:83-91 | null exactly when no session has id `sid`; otherwise gross time minus the session's pause time, open ends counting up to `now` |
| Store.SumInWindowAppend | app/src/main/java/com/example/worktime/AppDb.kt:93-102 | a session adds its effective time to the window sum exactly when `startTs >= start` and `(endTs ?: now) < end` |
| Store.SumInWindowEmpty | app/src/main/java/com/example/worktime/AppDb.kt:98 | with no session inside the window the sum is 0 |
| Store.EffectiveSumBetween | app/src/main/java/com/example/worktime/AppDb.kt:93-102 | the sum of the effective times of exactly the sessions with `startTs >= start` and end (or `now`) `< end` |
| Store.SessionsOf | app/src/main/java/com/example/worktime/AppDb.kt:111 | the sessions with `projectId == pid` |
| Store.SumForProjectIsSumOfSessions | app/src/main/java/com/example/worktime/AppDb.kt:104-113 | `effectiveSumForProject(pid, now)` is the sum of `effectiveForSession` over the project's sessions, and 0 for none |
| Store.EffectiveSumForProject | app/src/main/java/com/example/worktime/AppDb.kt:104-113 | the sum of the effective times of exactly the sessions with `projectId == pid` |
| Store.OrdersArePreorders | app/src/main/java/com/example/worktime/AppDb.kt:62-66 | every `ORDER BY` used is a total preorder |
| Store.SessionsForProject | app/src/main/java/com/example/worktime/AppDb.kt:115-116 | `sessionsForProject` lists exactly the project's sessions, by ascending `startTs` |
| Store.PausesOf | app/src/main/java/com/example/worktime/AppDb.kt:133 | the pauses whose `sessionId` matches |
| Store.AllForSession | app/src/main/java/com/example/worktime/AppDb.kt:133 | `allForSession` lists exactly the session's pauses, by ascending `startTs` |
| Store.AllForSessionOwned | app/src/main/java/com/example/worktime/AppDb.kt:133 | a pause is listed exactly when it is stored with that `sessionId` |
| Store.EditsOf | app/src/main/java/com/example/worktime/AppDb.kt:139 | the audit rows whose `sessionId` matches |
| Store.ListForSession | app/src/main/java/com/example/worktime/AppDb.kt:139 | `listForSession` lists exactly the session's audit rows, latest `editedAt` first |
| Store.Active | app/src/main/java/com/example/worktime/AppDb.kt:62 | the non-archived projects |
| Store.GetActive | app/src/main/java/com/example/worktime/AppDb.kt:62-63 | `getActive` lists exactly the non-archived projects, by name |
| Store.GetAll | app/src/main/java/com/example/worktime/AppDb.kt:65-66 | `getAll` lists every project once, non-archived before archived, each part by name |
| Store.ArchiveRoundTrip | app/src/main/java/com/example/worktime/AppDb.kt:59-63 | archiving then unarchiving an active project restores the tables, and an archived project is missing from `getActive` |
| Store.AppDb.InsertProject | app/src/main/java/com/example/worktime/AppDb.kt:57 | `@Insert` appends the project under the next auto-increment id and returns it |
| Store.AppDb.UpdateProject | app/src/main/java/com/example/worktime/AppDb.kt:58 | `@Update` rewrites the rows with that id |
| Store.AppDb.Archive | app/src/main/java/com/example/worktime/AppDb.kt:59 | the new state is `ArchivedSet(old, id, true)` |
| Store.AppDb.Unarchive | app/src/main/java/com/example/worktime/AppDb.kt:60 | the new state is `ArchivedSet(old, id, false)` |
| Store.AppDb.InsertSession | app/src/main/java/com/example/worktime/AppDb.kt:74 | appends the session under the next id and returns it |
| Store.AppDb.UpdateSession | app/src/main/java/com/example/worktime/AppDb.kt:75 | rewrites the session rows with that id |
| Store.AppDb.InsertPause | app/src/main/java/com/example/worktime/AppDb.kt:129 | appends the pause of an existing session under the next id and returns it |
| Store.AppDb.UpdatePause | app/src/main/java/com/example/worktime/AppDb.kt:130 | the new state is `PauseUpdated(old, p)`, which rewrites the rows with that id and is a no-op when there is none |
| Store.AppDb.DeletePause | app/src/main/java/com/example/worktime/AppDb.kt:131 | removes the pause rows with that id |
| Store.AppDb.InsertEdit | app/src/main/java/com/example/worktime/AppDb.kt:138 | appends the audit row of an existing session under the next id and returns it |
| Repository.EndedStopsAll | app/src/main/java/com/example/worktime/TimeRepository.kt:41-44 | after `endSession` no session runs |
| Repository.AtMostOneRunning | app/src/main/java/com/example/worktime/AppDb.kt:77 | with at most one running session, `getRunning` returns exactly that session |
| Repository.StartedAt | app/src/main/java/com/example/worktime/TimeRepository.kt:36-39 | nothing changes while a session runs; otherwise the session `(next id, projectId, startTs, open, manual)` is appended and only the sessions and their counter change |
| Repository.Started | app/src/main/java/com/example/worktime/TimeRepository.kt:30-34 | nothing changes while a session runs; otherwise `getRunning` afterwards returns the new session for `projectId` started at `now` |
| Repository.Ended | app/src/main/java/com/example/worktime/TimeRepository.kt:41-44 | nothing changes when no session runs; otherwise the running session is stored with `endTs = now`; no row is added or removed and no other table changes |
| Repository.Toggled | app/src/main/java/com/example/worktime/TimeRepository.kt:46-54 | nothing changes when no session runs; otherwise an open pause `[now, null)` of the running session is appended when it has none, or its open pause gets `endTs = now`; sessions, projects and audit rows stay |
| Repository.Switched | app/src/main/java/com/example/worktime/TimeRepository.kt:57-63 | the sessions are those after `endSession(now)` followed by a new running session for `toProjectId` from `now`; pauses, audit rows and projects stay |
| Repository.EndSessionEffect | app/src/main/java/com/example/worktime/TimeRepository.kt:41-44 | nothing changes when no session runs; otherwise only the running row gets `endTs = now`, and pauses (an open one included) and audit rows stay as they were |
| Repository.StartSessionAtEffect | app/src/main/java/com/example/worktime/TimeRepository.kt:30-39 | nothing changes while a session runs; otherwise exactly one session is appended with the next id, the given project, start and manual flag and `endTs = null`, and it is the running one |
| Repository.StartedAtKeepsOneRunning | app/src/main/java/com/example/worktime/TimeRepository.kt:30-39 | starting keeps at most one session with `endTs == null` |
| Repository.SwitchProjectEffect | app/src/main/java/com/example/worktime/TimeRepository.kt:57-63 | afterwards exactly one session runs, the new one for `toProjectId` starting at `now`; a previously running session ends at that same `now` |
| Repository.SwitchedRunsNew | app/src/main/java/com/example/worktime/TimeRepository.kt:58-62 | the sessions are those of `endSession(now)` plus the new session, which is the only running one |
| Repository.TogglePauseTouchesOnlyRunning | app/src/main/java/com/example/worktime/TimeRepository.kt:46-54 | pauses of other sessions are untouched, and any added pause belongs to the running session |
| Repository.ToggledKeepsOneOpenPause | app/src/main/java/com/example/worktime/TimeRepository.kt:48-53 | `togglePause` keeps at most one open pause per session |
| Repository.ClosedKeepsOneOpenPause | app/src/main/java/com/example/worktime/TimeRepository.kt:52 | closing a pause cannot create a second open pause |
| Repository.LifecycleOnlyEndsChange | app/src/main/java/com/example/worktime/TimeRepository.kt:30-63 | no lifecycle operation deletes a session or changes a session field other than `endTs`; only `togglePause` changes pauses |
| Repository.TimeRepository.EffectiveToday | app/src/main/java/com/example/worktime/TimeRepository.kt:15-19 | queries the window `[dayStart(now), dayStart(now) + 86 400 000)` |
| Repository.TimeRepository.EffectiveWeek | app/src/main/java/com/example/worktime/TimeRepository.kt:21-27 | queries `weekBounds(now, weekStartMonday ?: true)` |
| Repository.TimeRepository.StartSession | app/src/main/java/com/example/worktime/TimeRepository.kt:30-34 | the new state is `Started(old, projectId, now)` |
| Repository.TimeRepository.StartSessionAt | app/src/main/java/com/example/worktime/TimeRepository.kt:36-39 | the new state is `StartedAt(old, projectId, startTs, manual)` |
| Repository.TimeRepository.EndSession | app/src/main/java/com/example/worktime/TimeRepository.kt:41-44 | the new state is `Ended(old, now)` |
| Repository.TimeRepository.TogglePause | app/src/main/java/com/example/worktime/TimeRepository.kt:46-54 | the new state is `Toggled(old, now)` |
| Repository.TimeRepository.SwitchProject | app/src/main/java/com/example/worktime/TimeRepository.kt:57-63 | the new state is `Switched(old, toProjectId, now)` |
| Trigger.SlotOfDay | app/src/main/java/com/example/worktime/TriggerWorker.kt:47 | the slot `(DAY_OF_WEEK + 5) % 7` is 0 on Monday and 6 on Sunday |
| Trigger.SlotText | app/src/main/java/com/example/worktime/TriggerWorker.kt:47-52 | today's stored start text for the slot of the weekday, or "09:00" when the slot has none |
| Trigger.MatchesHhMmShape | app/src/main/java/com/example/worktime/TriggerWorker.kt:53 | the pattern `^(\d{1,2}):(\d{2})$` matches exactly one or two digits, a colon and two digits |
| Trigger.HourMinute | app/src/main/java/com/example/worktime/TriggerWorker.kt:53-55 | null exactly when the pattern fails; otherwise the hour is the value of the digits before the colon clamped to 0..23, and the minutes the value of the two digits after it clamped to 0..59 |
| Trigger.StdStartToday | app/src/main/java/com/example/worktime/TriggerWorker.kt:45-59 | null exactly when today's text fails the pattern; otherwise an instant on today's date, a whole minute, whose hours and minutes past midnight are the parsed (clamped) hour and minute |
| Trigger.ParseStdStartToday | app/src/main/java/com/example/worktime/TriggerWorker.kt:45-59 | the calendar steps compute exactly `StdStartToday(p, now)` |
| Trigger.StdStartDefault | app/src/main/java/com/example/worktime/TriggerWorker.kt:52 | a missing entry for today reads as "09:00", even when other days are set |
| Trigger.StdStartOneDigitHour | app/src/main/java/com/example/worktime/TriggerWorker.kt:53-58 | "7:05" is accepted as 07:05 |
| Trigger.StdStartClamped | app/src/main/java/com/example/worktime/TriggerWorker.kt:54-55 | "25:70" clamps to 23:59 |
| Trigger.StdStartRefused | app/src/main/java/com/example/worktime/TriggerWorker.kt:53 | "7:5" and a trailing space give null |
| Trigger.Notifications | app/src/main/java/com/example/worktime/TriggerWorker.kt:33-40 | the two notifications never come together, and with WLAN detection off neither comes |
| Trigger.NotLoggedInWhen | app/src/main/java/com/example/worktime/TriggerWorker.kt:35-37 | "Nicht eingeloggt" exactly when a start is expected, the device is at work, nothing runs and `now > expectStart + lateAfter * 60000` |
| Trigger.LeftWorkplaceWhen | app/src/main/java/com/example/worktime/TriggerWorker.kt:38-40 | "Arbeitsort verlassen" exactly when a session runs, the device is not at work and detection is on |
| Trigger.LateBoundary | app/src/main/java/com/example/worktime/TriggerWorker.kt:35 | nothing is sent exactly at the late boundary, and the reminder comes one millisecond later |
| Trigger.BlankSsidWarnsWhileRunning | app/src/main/java/com/example/worktime/TriggerWorker.kt:33-40 | with detection on and a blank configured SSID a running session always gets "Arbeitsort verlassen" |
| Trigger.DefaultsPostNothing | app/src/main/java/com/example/worktime/TriggerWorker.kt:26-28 | missing settings mean detection off, SSID "" and `lateAfter = 10`, and then nothing is sent |
| Trigger.QuotedSsid | app/src/main/java/com/example/worktime/TriggerWorker.kt:61-66 | the current SSID matches with or without its quotes, ignoring case |
| Trigger.IsOnWifi | app/src/main/java/com/example/worktime/TriggerWorker.kt:61-66 | no current SSID means not on the Wi-Fi; a configured SSID without quotes matches the current SSID given plain or in quotes |
| Trigger.AtWork | app/src/main/java/com/example/worktime/TriggerWorker.kt:33 | at work only with detection on, a non-blank SSID and a current SSID; with those, the quoted form of the configured SSID is at work |
| Editor.PickTime | app/src/main/java/com/example/worktime/SessionEditorScreen.kt:41 | `dayStart(base) + (hh * 60 + mm) * 60000` is, for hh in 0..23 and mm in 0..59, a whole minute on the same day as `base` |
| Editor.SessionUpdatedKeepsIds | app/src/main/java/com/example/worktime/AppDb.kt:75 | updating a session keeps the set of session ids |
| Editor.StartEdited | app/src/main/java/com/example/worktime/SessionEditorScreen.kt:62-78 | an unchanged start writes nothing; otherwise one "startTs" audit row of that session is appended; pauses and projects stay and the log only grows |
| Editor.EndEdited | app/src/main/java/com/example/worktime/SessionEditorScreen.kt:83-99 | an unchanged end writes nothing; otherwise one "endTs" audit row of that session is appended; pauses and projects stay and the log only grows |
| Editor.PauseStartEdited | app/src/main/java/com/example/worktime/SessionEditorScreen.kt:113-127 | an unchanged pause start writes nothing; otherwise one "pause_edit" audit row of the session is appended; sessions and projects stay and the log only grows |
| Editor.PauseEndEdited | app/src/main/java/com/example/worktime/SessionEditorScreen.kt:134-148 | an unchanged pause end writes nothing; otherwise one "pause_edit" audit row of the session is appended; sessions and projects stay and the log only grows |
| Editor.PauseDeletedLogged | app/src/main/java/com/example/worktime/SessionEditorScreen.kt:152-163 | one "pause_delete" audit row with a null new value is appended; sessions and projects stay and the log only grows |
| Editor.PauseAdded | app/src/main/java/com/example/worktime/SessionEditorScreen.kt:170-183 | one pause of the session and one "pause_add" audit row with a null old value are appended; sessions and projects stay and the log only grows |
| Editor.StartEditEffect | app/src/main/java/com/example/worktime/SessionEditorScreen.kt:62-78 | an unchanged start writes nothing; otherwise only that session's `startTs` changes and one "startTs" row is appended whose old and new values are `toString()` of the old and new start, which read back as those values when non-negative |
| Editor.EndEditEffect | app/src/main/java/com/example/worktime/SessionEditorScreen.kt:83-99 | an unchanged end writes nothing; otherwise only that session's `endTs` changes and one "endTs" row is appended whose old value is null exactly for a running session; ending the only running session leaves none running |
| Editor.PauseStartEditEffect | app/src/main/java/com/example/worktime/SessionEditorScreen.kt:113-127 | a pause start edit writes the snapshot with the new start into the rows with its id and appends one "pause_edit" row with the old and new texts |
| Editor.PauseEndEditEffect | app/src/main/java/com/example/worktime/SessionEditorScreen.kt:134-148 | a pause end edit writes the snapshot with the new end into the rows with its id and appends one "pause_edit" row with the old and new texts |
| Editor.StalePauseSnapshot | app/src/main/java/com/example/worktime/SessionEditorScreen.kt:107-148 | the listed pause is not refreshed: editing its start and then its end writes the original start back, and the second audit row shows the original text as old value |
| Editor.PauseDeleteEffect | app/src/main/java/com/example/worktime/SessionEditorScreen.kt:152-163 | deleting removes the pause rows and appends "pause_delete" with the old text and a null new value |
| Editor.PauseAddEffect | app/src/main/java/com/example/worktime/SessionEditorScreen.kt:170-183 | adding inserts the closed pause from noon of the session's start day for 30 minutes under the next id and appends "pause_add" with a null old value |
| Editor.SessionEditor.constructor | app/src/main/java/com/example/worktime/SessionEditorScreen.kt:31-32 | opening the editor loads the session by id and its pauses by start time |
| Editor.SessionEditor.EditStart | app/src/main/java/com/example/worktime/SessionEditorScreen.kt:61-80 | the new state is `StartEdited` with the picked time; the shown session is refreshed after a write |
| Editor.SessionEditor.EditEnd | app/src/main/java/com/example/worktime/SessionEditorScreen.kt:82-101 | the new state is `EndEdited` with the time picked from the end, or from now for a running session; the shown session is refreshed after a write and unchanged otherwise |
| Editor.SessionEditor.EditPauseStart | app/src/main/java/com/example/worktime/SessionEditorScreen.kt:112-129 | the new state is `PauseStartEdited` with the picked time |
| Editor.SessionEditor.EditPauseEnd | app/src/main/java/com/example/worktime/SessionEditorScreen.kt:133-150 | the new state is `PauseEndEdited` with the picked time |
| Editor.SessionEditor.DeletePause | app/src/main/java/com/example/worktime/SessionEditorScreen.kt:152-166 | the new state is `PauseDeletedLogged`, and the pause leaves the listed pauses |
| Editor.SessionEditor.AddPause | app/src/main/java/com/example/worktime/SessionEditorScreen.kt:170-186 | the new state is `PauseAdded`, and the new pause is listed under its returned id |
| WeekCalendar.IsoDayOfWeek | app/src/main/java/com/example/worktime/WeekSumCalendar.kt:32 | `dayOfWeek.value` is 1..7 with Monday = 1 and Sunday = 7 |
| WeekCalendar.FirstCell | app/src/main/java/com/example/worktime/WeekSumCalendar.kt:30-32 | the first cell is a Monday 0 to 6 days before the 1st of the month |
| WeekCalendar.Grid | app/src/main/java/com/example/worktime/WeekSumCalendar.kt:33 | the grid has 42 days |
| WeekCalendar.RowsStartOnMonday | app/src/main/java/com/example/worktime/WeekSumCalendar.kt:45-46 | row `w` holds the 7 consecutive days from `firstCell + 7w`, starting on a Monday |
| WeekCalendar.MonthInGrid | app/src/main/java/com/example/worktime/WeekSumCalendar.kt:32-33 | every day of the selected month is in the grid |
| WeekCalendar.RowStartMillis | app/src/main/java/com/example/worktime/WeekSumCalendar.kt:47-50 | the calendar steps compute the midnight of the row's first day |
| WeekCalendar.RowWindowCoversRow | app/src/main/java/com/example/worktime/WeekSumCalendar.kt:47-52 | each row's window starts at that row's Monday midnight, ends 7 days later and contains each of its days |
| WeekCalendar.WeekBand | app/src/main/java/com/example/worktime/WeekSumCalendar.kt:54-59 | for a non-negative target: green exactly when `sum >= target`, yellow exactly when `target * 3 / 4 <= sum < target`, red exactly below `target * 3 / 4` |
| WeekCalendar.WeekBandMonotone | app/src/main/java/com/example/worktime/WeekSumCalendar.kt:55-59 | a larger sum never gets a worse colour |
| WeekCalendar.WeekBandForty | app/src/main/java/com/example/worktime/WeekSumCalendar.kt:54-59 | for 40 hours the bands change at exactly 30 h and 40 h |
| WeekCalendar.DayBeforeMonth | app/src/main/java/com/example/worktime/WeekSumCalendar.kt:74 | the leading cells lie in the previous month |
| WeekCalendar.DayInMonth | app/src/main/java/com/example/worktime/WeekSumCalendar.kt:74 | a cell inside the month has that month and day |
| WeekCalendar.DayAfterMonth | app/src/main/java/com/example/worktime/WeekSumCalendar.kt:74 | the trailing cells lie in the next month |
| WeekCalendar.SelectedDate | app/src/main/java/com/example/worktime/WeekSumCalendar.kt:75 | the selected valid date is the date of its own day number |
| WeekCalendar.Dimmed | app/src/main/java/com/example/worktime/WeekSumCalendar.kt:74-77 | the selected day is never dimmed |
| WeekCalendar.Highlighted | app/src/main/java/com/example/worktime/WeekSumCalendar.kt:75-76 | a highlighted cell shows the selected date |
| WeekCalendar.DimmedOutsideMonth | app/src/main/java/com/example/worktime/WeekSumCalendar.kt:74-77 | a cell is dimmed exactly when its date is outside the selected month |
| WeekCalendar.SelectedHighlightedOnce | app/src/main/java/com/example/worktime/WeekSumCalendar.kt:75-76 | exactly one cell is highlighted, and it is not dimmed |
| ProjectsScreen.TabRows | app/src/main/java/com/example/worktime/ProjectsScreen.kt:45 | tab 0 shows exactly the non-archived projects, tab 1 exactly the archived ones |
| ProjectsScreen.TabsSplit | app/src/main/java/com/example/worktime/ProjectsScreen.kt:45 | on a list with the archived rows last, the two tabs concatenated give the list back, in order |
| ProjectsScreen.TabsOfGetAll | app/src/main/java/com/example/worktime/ProjectsScreen.kt:45 | on `getAll` the tabs split the list in order, and each tab is sorted by name |
| ProjectsScreen.ToggleArchive | app/src/main/java/com/example/worktime/ProjectsScreen.kt:53-56 | the button calls `unarchive` for an archived project and `archive` otherwise |
| ProjectsScreen.ToggleFlips | app/src/main/java/com/example/worktime/ProjectsScreen.kt:53-56 | the toggle flips `isArchived` of that project, and toggling back restores the tables |
| ProjectsScreen.DayGroup | app/src/main/java/com/example/worktime/ProjectsScreen.kt:120 | a group holds exactly the sessions whose `dayStart(startTs)` is its key |
| ProjectsScreen.InsertKey | app/src/main/java/com/example/worktime/ProjectsScreen.kt:120 | inserting a key keeps the keys ascending |
| ProjectsScreen.DayKeys | app/src/main/java/com/example/worktime/ProjectsScreen.kt:120 | the keys are ascending and are exactly the day starts of the sessions |
| ProjectsScreen.GroupByDay | app/src/main/java/com/example/worktime/ProjectsScreen.kt:119-121 | `groupBy { dayStart(it.startTs) }.toSortedMap()` is a partition of the sessions into non-empty groups under strictly ascending midnight keys, each session under its own day |
| ProjectsScreen.GroupsPartition | app/src/main/java/com/example/worktime/ProjectsScreen.kt:119-121 | grouping the sessions under their ascending day keys is a partition: keys ascend strictly and are midnights, every session is in exactly one non-empty group, and only under its own day |
| ProjectsScreen.GroupsKeepOrder | app/src/main/java/com/example/worktime/ProjectsScreen.kt:119-121 | grouping keeps the `startTs` order inside each group |
| ProjectsScreen.SumPermutation | app/src/main/java/com/example/worktime/ProjectsScreen.kt:144 | the sum of effective times does not depend on the order of the sessions |
| ProjectsScreen.DayTotal | app/src/main/java/com/example/worktime/ProjectsScreen.kt:144 | with unique session ids, the header total of a group of stored sessions is the sum of their effective times |
| ProjectsScreen.DayTotalsAddUp | app/src/main/java/com/example/worktime/ProjectsScreen.kt:136-144 | the day headers add up to the sum of `effectiveForSession ?: 0` over all sessions |
| ProjectsScreen.DetailMatchesListTotal | app/src/main/java/com/example/worktime/ProjectsScreen.kt:115-144 | for a project the day headers add up to the list's total `effectiveSumForProject` |
| ProjectsScreen.NewProjectInput | app/src/main/java/com/example/worktime/ProjectsScreen.kt:176 | create is refused exactly for a blank name; the name is trimmed, and the number is trimmed and null exactly when blank |
| ProjectsScreen.TrimIdempotent | app/src/main/java/com/example/worktime/ProjectsScreen.kt:176 | trimming twice is trimming once |
| ProjectsScreen.CreateProject | app/src/main/java/com/example/worktime/ProjectsScreen.kt:64-72 | a blank name changes nothing; otherwise the trimmed project is inserted under the next id |
| Settings.ShapeDigits | app/src/main/java/com/example/worktime/SettingsScreen.kt:198 | text matching `^\d{0,2}:?\d{0,2}$` leaves at most four digits once the colons are gone |
| Settings.TimeInputShape | app/src/main/java/com/example/worktime/SettingsScreen.kt:198 | the check for `^\d{0,2}:?\d{0,2}$` holds exactly for up to four digits, or up to two digits, a colon and up to two digits |
| Settings.HourDigits | app/src/main/java/com/example/worktime/SettingsScreen.kt:228 | the hour is two digits with the value of the first two raw digits |
| Settings.MinuteDigits | app/src/main/java/com/example/worktime/SettingsScreen.kt:229 | the minutes are two digits; a single remaining digit is right-padded with 0 |
| Settings.HhMm | app/src/main/java/com/example/worktime/SettingsScreen.kt:232 | `"%02d:%02d"` of an hour and minute in range is five characters with those values |
| Settings.OnlyColons | app/src/main/java/com/example/worktime/SettingsScreen.kt:226-227 | removing the colons leaves nothing exactly when the text is all colons |
| Settings.NormalizeTimeInput | app/src/main/java/com/example/worktime/SettingsScreen.kt:225-233 | "" exactly for colon-only input; otherwise a 5-character "HH:MM" whose hour is the first two digits clamped to 0..23 and whose minutes are the rest, right-padded, clamped to 0..59 |
| Settings.NormalizeParts | app/src/main/java/com/example/worktime/SettingsScreen.kt:228-232 | input not starting with ':' normalises to the two-digit texts of those clamped values |
| Settings.NormalizeLoneDigit | app/src/main/java/com/example/worktime/SettingsScreen.kt:228 | a lone digit `d` becomes "0d:00" |
| Settings.NormalizeThreeDigits | app/src/main/java/com/example/worktime/SettingsScreen.kt:228-229 | three digits `hhm` with an hour in range become "hh:m0" |
| Settings.NormalizeClamped | app/src/main/java/com/example/worktime/SettingsScreen.kt:230-231 | out-of-range hour and minutes give "23:59" |
| Settings.NormalizeColonOnly | app/src/main/java/com/example/worktime/SettingsScreen.kt:227 | ":" gives "" |
| Settings.NormalizeIdempotent | app/src/main/java/com/example/worktime/SettingsScreen.kt:225-233 | the output is again acceptable input, and normalising it returns it unchanged |
| Settings.FormattedFixed | app/src/main/java/com/example/worktime/SettingsScreen.kt:225-233 | an in-range "HH:MM" normalises to itself |
| Settings.StoredStartParses | app/src/main/java/com/example/worktime/TriggerWorker.kt:53-55 | a normalised start time is read back by the worker as the hour and minutes it shows; an empty one as null |
| Settings.StdStartEdited | app/src/main/java/com/example/worktime/SettingsScreen.kt:198 | text matching the pattern replaces the field by its normalised form, other text is refused |
| Settings.StdStartEditKeepsReadable | app/src/main/java/com/example/worktime/SettingsScreen.kt:198 | edits keep a field the worker can read, or empty |
| Settings.WeekHoursEdited | app/src/main/java/com/example/worktime/SettingsScreen.kt:103 | the week-hours field takes a parsed value clamped to 0..80 (below 0 gives 0, above 80 gives 80), keeps its value on a parse failure, and stays in 0..80 |
| Settings.NumberEdited | app/src/main/java/com/example/worktime/SettingsScreen.kt:180-183 | the interval and late-after fields take any parsed value and keep theirs on a parse failure |
| Settings.Saved | app/src/main/java/com/example/worktime/SettingsScreen.kt:70-89 | saving clamps the interval to 15..60 and late-after to 0..120, each out-of-range value going to the nearer bound; it saves a blank label as "Projekte" and stores every other field as entered |
| Settings.SavedIdempotent | app/src/main/java/com/example/worktime/SettingsScreen.kt:24-89 | saving twice is saving once, and the defaults are saved unchanged |

## Left out

- Time zones and daylight saving time: `java.util.Calendar` uses the device zone. The model uses fixed 86 400 000 ms days in UTC. So `dayStart`, `weekBounds`, `md` and the Calendar fields are UTC values.
- Negative years and instants before 1970: Dafny's Euclidean `/` and `%` are used for day numbers and years. For negative operands they agree with the floor-based calendar but not with Kotlin's truncating `easterSunday` arithmetic. Contracts on Easter speak of the formula as evaluated with Euclidean operators. Moreover `java.util.GregorianCalendar` switches to the Julian calendar before 15 October 1582, so the proleptic Gregorian `CivilDate` disagrees there with `Calendar.YEAR`, the day of the month and `DAY_OF_WEEK`.
- TimeUtils.RoundDuration: the source divides and multiplies in `Double`. The model uses exact integer floor, ceiling and half-to-even division. These agree while `ms` stays far below 2^53, but the rounding error of huge values is not modelled.
- TimeUtils.MsToHHMM: the format is stated only for non-negative durations. The `toInt()` truncation of minute counts beyond the 32-bit range is not modelled. Locale-specific digits of `String.format` are left out too.
- Long overflow: all arithmetic on timestamps is unbounded.
- `@Insert` with an explicit id: every insert takes the next auto-increment id. The code always inserts with id 0, which Room replaces by a fresh id.
- Store.AppDb.InsertPause: a pause for a missing session would fail the SQLite foreign key. The model makes the existing session a precondition instead of modelling the exception.
- Store.AppDb.InsertEdit: an audit row for a missing session would fail the SQLite foreign key. The model makes the existing session a precondition instead of modelling the exception.
- Store.AppDb.UpdatePause: rewriting an existing pause so that it names a missing session would fail the SQLite foreign key; the model makes that a precondition. An update of an id with no row is allowed and changes nothing, as with Room.
- `LIMIT 1` in `getRunning` and `getOpenPause` returns the first matching row in table order. SQLite does not promise an order; the contracts promise only "some matching row".
- `ORDER BY`: ties are left in insertion order. Names are compared by character code, which is SQLite's default BINARY collation for ASCII text.
- `sessionsForDay` is left out: it uses SQLite's `localtime` date functions and has no caller among the modelled operations.
- There is no DAO call that deletes a session. The cascade of `AppDb.kt:31` and `AppDb.kt:43` is modelled as the step function `Store.SessionDeleted` only.
- Editor.SessionEditor.constructor: requires the session to exist. When it does not, the dialog closes (`SessionEditorScreen.kt:31`), which changes no state.
- The editor's `effectiveForSession` display, the date header texts, `timeStr` and every layout and navigation detail of Compose are left out.
- Concurrency: coroutines, `Dispatchers.IO` and `runBlocking` are left out. Each operation is one atomic sequential step, so the read-then-insert races in `startSession` and the editor callbacks are not modelled.
- I/O: the clock, the DataStore reads, the current SSID and the current weekday are parameters of the operations.
- Settings.NormalizeTimeInput: requires text matching `^\d{0,2}:?\d{0,2}$`, because its only caller checks that pattern first (`SettingsScreen.kt:198`). The model covers that check in `Settings.StdStartEdited`.
- Trigger.QuotedSsid: case folding is ASCII only. Kotlin's `equals(ignoreCase = true)` also folds other letters.
- Text.ToIntOrNull: only the ASCII digits 0-9 are digits. On the JVM `toIntOrNull` reads digits with `Character.digit`, so fullwidth, Arabic-Indic and other Unicode decimal digits also parse; the model gives null for them.
- Text.Trim: whitespace is the set of Unicode code points that Kotlin's `isWhitespace` accepts within the Basic Multilingual Plane.
- Android glue is left out: notifications, the foreground service, `TriggerScheduler`, the WorkManager scheduling, Wi-Fi permissions and the SSID fill button, the wear app, the Room migration and the destructive fallback.
