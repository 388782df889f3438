# Timed alarm clock, modelled in Dafny

The chat-bot plugin `Timed-alarm-clock.js` sets reminders. A command such as
`#定时闹钟 明天下午3点半` resolves a Chinese time phrase to an instant. It then
stores one JSON record per alarm in a key-value store and arms a one-shot
scheduler job under the record's key. When the job fires, it sends the reminder
and deletes the record. Alarms can be listed per group and cancelled by their
position in that list. On the first load in a process, stored alarms are
restored: future ones are re-armed and past ones are deleted.

The project has two parts.

- **The time-expression resolver** (`Resolver.dfy`, on top of `Text.dfy` and
  `Calendar.dfy`) is written as pure functions over `string`.
  - It follows the source's rule order: command strip and empty check; the
    duration rewrites (`一个半小时`, then `半小时`, then `一刻钟`); the leftmost
    `N分钟后` match, else the leftmost `N小时后` match.
  - Otherwise the phrase goes through `preprocessTimeStr`:
    - shorthand expansion, then `号`/`点`/`：` normalisation;
    - the day keyword `后天`/`明天`/`今天`, else a numeric date, else a
      `年月日` date, else today;
    - the `中午` and `半` rewrites, the PM flag and marker removal;
    - `H:M`, else `H`, else 08:00, then the afternoon rule;
    - zero-padded `YYYY-MM-DD HH:MM` output.
  - Finally comes the strict `YYYY-MM-DD HH:mm` reading in Asia/Shanghai and
    the rejection of a past instant.
  - Every JavaScript regular expression is written out as a matcher at a
    position (`MinutesAt`, `NumericDateAt`, `ChineseDateAt`, `ClockAt`, …).
    `FirstMatch` runs the leftmost search that `String.prototype.match`
    performs.
- **The alarm lifecycle** (`Alarms.dfy`) is the class `AlarmClock`. Its field
  `store` is the key-value store, a map from key to stored value and expiry.
  Its field `timers` is the scheduler's job table, a map from job name to the
  record its callback holds. Its field `initialized` is the process-wide
  once-flag.
  - Listing and restoring are the source's `do … while (cursor !== 0)` scan
    loops over a sequence of scan replies, with an inner loop over each
    reply's keys.
  - Cancel, create and fire update the two maps in place.
  - Each method's `ensures` ties the new state to specification functions:
    - `Listing` (gather, then a stable sort by time);
    - `ExpiredAmong` and `PendingAmong` for the restore;
    - `ExpireSeconds` for the record's expiry.

  The lemmas state what those functions promise.

Behaviour worth noting:

- A past instant is refused by the time step (`setAlarmStep1`), not by the
  creation. Creation does not check again. A time that passed between the two
  steps (less than 300 s earlier) is stored but never armed, because the
  scheduler does not arm a date in the past.
- Records with equal times keep the order the scan visited them in, because
  the sort is stable. They are not ordered by key.
- A phrase with no digits is 08:00. The afternoon rule still applies to that
  default, so `下午` alone is 20:00. `中午` is 12:00 whatever period is named.
- Cancel takes a 1-based position in the group's time-sorted list. The
  requester must be the setter, or privileged (master or group admin).

## Model

| member | source | states |
|---|---|---|
| `Text.Contains` | Timed-alarm-clock.js:341 | `includes` holds exactly when the pattern occurs at some position |
| `Text.IndexOfFirst` | Timed-alarm-clock.js:343 | the search finds the first occurrence, and nothing when there is none |
| `Text.ReplaceFirst` | Timed-alarm-clock.js:343 | `replace` with a string pattern replaces only the first occurrence; a text without the pattern is unchanged |
| `Text.ReplaceAllNone` | Timed-alarm-clock.js:322-330 | a global replace leaves a text in which the pattern does not occur unchanged |
| `Text.ReplaceAllConcat` | Timed-alarm-clock.js:322-327 | a global replace of a two-character pattern works part by part when no occurrence straddles the seam |
| `Text.TrimStart` | Timed-alarm-clock.js:433 | the result is a suffix that starts with a non-space; only whitespace was removed |
| `Text.TrimEnd` | Timed-alarm-clock.js:433 | the result is a prefix that ends with a non-space; only whitespace was removed |
| `Text.TrimPrefix` | Timed-alarm-clock.js:343 | trimming a text that starts with a part bounded by non-spaces keeps that part |
| `Text.TrimSubset` | Timed-alarm-clock.js:504 | trimming keeps only characters of the input |
| `Text.NatToString` | Timed-alarm-clock.js:410 | `String(n)` is all digits, reads back as `n`, has no leading zero, and has one digit below 10 and two below 100 |
| `Text.ZeroFill` | Timed-alarm-clock.js:410 | `padStart(2, '0')` keeps the value and gives at least the width |
| `Text.ValueLeadingZeros` | Timed-alarm-clock.js:410 | leading zeros do not change a digit string's value |
| `Calendar.NextDay` | Timed-alarm-clock.js:336-337 | the day after a valid date is valid and one further in the day count |
| `Calendar.AddDays` | Timed-alarm-clock.js:336-338 | `add(k, 'days')` gives a valid date `k` days later in the day count |
| `Calendar.YearLength` | Timed-alarm-clock.js:336-337 | a counted year is 366 days long exactly when it is a leap year |
| `Calendar.FormatDateLayout` | Timed-alarm-clock.js:342 | `YYYY-MM-DD` of a four-digit year has that layout, and its digit groups read back as year, month and day |
| `Resolver.FirstMatchSkip` | Timed-alarm-clock.js:450 | the leftmost search passes over positions where no match starts |
| `Resolver.FirstMatchIn` | Timed-alarm-clock.js:387 | whatever the leftmost search returns is a match at some position |
| `Resolver.ClockAt` | Timed-alarm-clock.js:387 | the hour and minute of `(\d{1,2}):(\d{1,2})` are each below 100; the values read are stated by `ClockAtStart` and `ClockReadValues` |
| `Resolver.HourAt` | Timed-alarm-clock.js:393 | the hour of `(\d{1,2})` is below 100; the value read is stated by `HourRestRead` |
| `Resolver.UnitAtRun` | Timed-alarm-clock.js:450 | at a maximal digit run, `(\d+)\s*<unit>` reads the run's value exactly when the unit follows |
| `Resolver.UnitNeedsUnit` | Timed-alarm-clock.js:455 | a count is read only where the unit's first character occurs |
| `Resolver.MinutesPhrase` | Timed-alarm-clock.js:450-452 | `<n>分钟后` is now plus n minutes, whatever follows |
| `Resolver.HoursPhrase` | Timed-alarm-clock.js:454-458 | `<n>小时后` is now plus n hours when no minute count or duration word is present |
| `Resolver.MinutesOverHours` | Timed-alarm-clock.js:450-459 | a minute count wins over an hour count written before it |
| `Resolver.HourAndHalfRewrite` | Timed-alarm-clock.js:446-448 | `一个半小时后` is rewritten to `90分钟后` before `半小时` can claim its end |
| `Resolver.HourAndHalfPhrase` | Timed-alarm-clock.js:446-452 | `一个半小时后` is now plus 90 minutes |
| `Resolver.HalfHourPhrase` | Timed-alarm-clock.js:447-452 | `半小时后` is now plus 30 minutes |
| `Resolver.QuarterHourPhrase` | Timed-alarm-clock.js:448-452 | `一刻钟后` is now plus 15 minutes |
| `Resolver.NoRelativeReading` | Timed-alarm-clock.js:445-460 | a phrase with no duration word and no minute or hour unit has no relative reading |
| `Resolver.ShorthandSpelledOut` | Timed-alarm-clock.js:322-327 | each of 今晚/明晚/后晚/今早/明早/后早 expands to exactly what its long form expands to |
| `Resolver.ShorthandFreeUnchanged` | Timed-alarm-clock.js:322-327 | a text with no shorthand is its own expansion |
| `Resolver.ReplaceEachSplit` | Timed-alarm-clock.js:322-327 | replacing with two tables in turn is replacing with the joined table |
| `Resolver.NoDayKeyword` | Timed-alarm-clock.js:340-346 | without `天` there is no day keyword |
| `Resolver.KeywordFound` | Timed-alarm-clock.js:335-346 | the first of `后天`, `明天`, `今天` that the text holds decides the day offset |
| `Resolver.KeywordRemoved` | Timed-alarm-clock.js:343 | only the first occurrence of the keyword is removed |
| `Resolver.KeywordDate` | Timed-alarm-clock.js:335-346 | a day keyword fixes the date to today plus 2/1/0 and leaves the trimmed rest as the time text |
| `Resolver.NumericDateAtFront` | Timed-alarm-clock.js:350 | a printed `YYYY-MM-DD` at the front is the first numeric date matched, with its year, month and day |
| `Resolver.ExplicitDate` | Timed-alarm-clock.js:348-356 | with no day keyword, a printed `YYYY-MM-DD` date at the front is that date and the trimmed rest is the time text |
| `Resolver.NumericDateAtZero` | Timed-alarm-clock.js:350 | `YYYY-M-D` or `YYYY/M/D` with one- or two-digit month and day is matched whole, with its year, month and day, unless a digit follows a one-digit day |
| `Resolver.NumericDate` | Timed-alarm-clock.js:348-356 | with no day keyword, a numeric date at the front, with either separator and one- or two-digit fields, is that date (`Invalid date` when it does not exist), and the trimmed rest is the time text |
| `Resolver.NumericNeedsSeparator` | Timed-alarm-clock.js:350 | a numeric date is matched only where `-` or `/` stands |
| `Resolver.ChineseNeedsDay` | Timed-alarm-clock.js:359 | a `年月日` date is matched only where `日` stands |
| `Resolver.MonthDayRun` | Timed-alarm-clock.js:359 | `M月D日` is read as that month and day, the match ending after `日` |
| `Resolver.FullChineseDateAtFront` | Timed-alarm-clock.js:359-363 | `YYYY年M月D日` at the front is the first date matched, with the year group taken |
| `Resolver.MonthDayAtFront` | Timed-alarm-clock.js:359-366 | `M月D日` at the front is the first date matched, with no year |
| `Resolver.FullChineseDate` | Timed-alarm-clock.js:358-370 | with no keyword or numeric date, `YYYY年M月D日` is that date as written (`Invalid date` when it does not exist) |
| `Resolver.MonthDayDate` | Timed-alarm-clock.js:358-370 | with no keyword or numeric date, `M月D日` is that day of the current year |
| `Resolver.NoDateMeansToday` | Timed-alarm-clock.js:358-374 | a text naming no date is today's, and is left untrimmed |
| `Resolver.StripPeriodsSubset` | Timed-alarm-clock.js:380 | removing period markers keeps only characters of the input |
| `Resolver.StripPeriodsNone` | Timed-alarm-clock.js:380 | text without a marker's first character passes through marker removal |
| `Resolver.StripLeadingMarker` | Timed-alarm-clock.js:380 | a leading period marker is removed |
| `Resolver.SaysPmMarker` | Timed-alarm-clock.js:379 | behind a marker, the PM flag is set exactly when the marker is `下午` or `晚上` |
| `Resolver.ClockAtStart` | Timed-alarm-clock.js:387-391 | `H:M` is read as that hour and minute |
| `Resolver.ClockNeedsMinute` | Timed-alarm-clock.js:387 | a clock time is read only where a colon is followed by a digit |
| `Resolver.ClockNeedsDigit` | Timed-alarm-clock.js:387-393 | an hour or clock time is read only where a digit stands |
| `Resolver.NoClockTime` | Timed-alarm-clock.js:387-393 | `H` or `H:` holds no clock time, so the bare-hour reading is used |
| `Resolver.ClockTimeTaken` | Timed-alarm-clock.js:376-408 | `[marker]H:M` gives hour and minute, with 12 added to hours 1–11 exactly when the marker is `下午`/`晚上` |
| `Resolver.BareHourTaken` | Timed-alarm-clock.js:393-408 | `[marker]H` or `[marker]H点` gives that hour on the hour, after the afternoon rule |
| `Resolver.HalfPast` | Timed-alarm-clock.js:376-408 | `[marker]H点半` is half past that hour, after the afternoon rule |
| `Resolver.NoonIsTwelve` | Timed-alarm-clock.js:376-408 | `中午` is 12:00 whatever follows and whatever period is named |
| `Resolver.DefaultTime` | Timed-alarm-clock.js:400-408 | a time text with no digits is 08:00, or 20:00 when it says `下午` or `晚上` |
| `Resolver.Preprocess` | Timed-alarm-clock.js:319-412 | the output ends in ` HH:MM`, hour and minute two digits each |
| `Resolver.StampedLayout` | Timed-alarm-clock.js:410 | the output is the date part, a space, the padded hour, a colon and the padded minute |
| `Resolver.StrictParseOf` | Timed-alarm-clock.js:466 | a text in the strict layout is read field by field, and refused when the date or time does not exist |
| `Resolver.StampRoundTrip` | Timed-alarm-clock.js:410-466 | the strict reading gives back the printed date, hour and minute exactly when they form a clock time |
| `Resolver.InvalidDateUnparseable` | Timed-alarm-clock.js:353-471 | a date printed as `Invalid date` makes the phrase unparseable |
| `Resolver.ImpossibleChineseDate` | Timed-alarm-clock.js:365-474 | a `年月日` date that does not exist is refused as unparseable |
| `Resolver.ImpossibleNumericDate` | Timed-alarm-clock.js:350-474 | a numeric date that does not exist (`2025-02-30`), then a space and a clock time, is refused as unparseable |
| `Resolver.ResolvePhrase` | Timed-alarm-clock.js:463-479 | a resolved instant is never before now, and a rejection is unparseable or past |
| `Resolver.RelativeDecides` | Timed-alarm-clock.js:446-479 | a phrase with a relative reading resolves to exactly that instant, which is never before now; the grammar is not consulted |
| `Resolver.KeywordIgnoredByMinutes` | Timed-alarm-clock.js:446-479 | `明天<n>分钟后` resolves to now plus n minutes: the minute count wins over the day keyword |
| `Resolver.ResolveAlarmTime` | Timed-alarm-clock.js:433-479 | the phrase is refused as empty exactly when the command text is empty after stripping and trimming; a resolved instant is not in the past |
| `Resolver.NamedDayAtClock` | Timed-alarm-clock.js:319-479 | `<day keyword>[marker]H<sep>M` is that local time today, tomorrow or the day after; unparseable when not a clock time, past when before now, resolved otherwise |
| `Alarms.ScanLength` | Timed-alarm-clock.js:145-166 | the scan consumes replies up to and including the first whose cursor is 0 |
| `Alarms.SortByTime` | Timed-alarm-clock.js:168 | the sorted list is ordered by time and is a permutation of the input |
| `Alarms.SortStable` | Timed-alarm-clock.js:168 | records with equal times keep their scan order |
| `Alarms.InsertSorted` | Timed-alarm-clock.js:168 | inserting into a time-sorted list keeps it sorted |
| `Alarms.GatheredMembers` | Timed-alarm-clock.js:150-164 | the scan gathers exactly the parseable records under visited keys that pass the group filter |
| `Alarms.ListingExact` | Timed-alarm-clock.js:142-170 | the listing holds exactly the visited, parseable, filter-passing records, sorted, each as often as gathered |
| `Alarms.ListedStored` | Timed-alarm-clock.js:142-170 | every listed record is the one stored under its own key |
| `Alarms.CreatedIsListed` | Timed-alarm-clock.js:513-524 | a created record is listed by any scan that visits its key, when its group passes the filter |
| `Alarms.DeletedIsNotListed` | Timed-alarm-clock.js:267 | once a key is deleted, no listed record carries it |
| `Alarms.AlarmKey` | Timed-alarm-clock.js:519 | the key starts with `alarm:clock:` and ends with `:<nonce>` |
| `Alarms.ExpiryOutlivesAlarm` | Timed-alarm-clock.js:523 | the expiry is positive exactly when the alarm is less than 300 s in the past; a future record outlives its alarm by 299–300 s |
| `Alarms.AlarmClock.ListAlarms` | Timed-alarm-clock.js:142-170 | the scan loop returns the `Listing` of the store |
| `Alarms.AlarmClock.GatherPage` | Timed-alarm-clock.js:150-164 | one reply's keys add what each key picks, in order |
| `Alarms.AlarmClock.Load` | Timed-alarm-clock.js:41-44 | only the first load restores; later loads change nothing |
| `Alarms.AlarmClock.Restore` | Timed-alarm-clock.js:277-314 | future records among the visited keys are armed and past ones deleted; nothing else changes |
| `Alarms.AlarmClock.RestorePage` | Timed-alarm-clock.js:290-307 | one reply's keys are restored key by key |
| `Alarms.AlarmClock.Cancel` | Timed-alarm-clock.js:246-272 | a bad index or a requester without rights changes nothing; otherwise only the listed record's key leaves the store and the job table |
| `Alarms.AlarmClock.Fire` | Timed-alarm-clock.js:547-566 | the reminder is sent when the group is reachable; the record and the spent job are removed in any case |
| `Alarms.AlarmClock.Create` | Timed-alarm-clock.js:502-541 | empty content or a non-positive expiry changes nothing; otherwise the record is stored with expiry `seconds until fire + 300` and armed when in the future |
| `Alarms.AlarmClock.SetAlarm` | Timed-alarm-clock.js:433-541 | a rejected phrase stores and arms nothing; an accepted one is not in the past, and then the outcome, the record built (setter, target, group, trimmed content, key), the stored entry and the armed job are those of `Create` at that instant |

## Left out

- Chat I/O is left out: replies, forwarded messages, user-profile lookups, the
  help texts and the `listAllAlarms` display grouping. The reminder a fired
  alarm sends is returned as a value.
- The two-step conversation (`setContext`/`finish`, the 120 s timeout) and the
  extraction of text segments from the message are left out. `SetAlarm` takes
  the command text and the reply text as inputs.
- The clock is a parameter: `now` for each step, and `today`, the calendar date
  of `now` in the process's own time zone (`moment()` without a zone, used for
  the day keywords, the default year and today's date). Only the strict reading
  uses Asia/Shanghai, so on a host not at UTC+8 `today` can differ from the
  Asia/Shanghai date of `now`; the model takes `today` as given and does not
  relate the two. The source reads the wall clock several times in one step;
  the model uses one `now` per step.
- The zone is a fixed UTC+8. Asia/Shanghai's historical daylight-saving periods
  (before 1992) are not modelled.
- Resolver.Clock: the date-time library's lenient reading of a partial date
  without a month (such as `15日` or `2025年15日`) is a parameter
  (`lenientDate`). Only the library defines it.
- Create: the store is assumed to refuse an expiry of 0 s or less. The source's
  error path then runs, so nothing is stored and no job is armed
  (`StoreRejected`). The store itself is not modelled.
- `Math.random()` in the key is an input, the nonce. `Create` requires the key
  to be fresh in the store.
- Store and scheduler internals are not modelled: network failures of
  scan/get/set, store-side expiry over time, and the race between a firing job
  and a cancel. The scan is a given sequence of replies. A reply sequence that
  ends before a zero cursor stops where it ends.
- A stored value that fails to parse is a `Malformed` payload. It is skipped
  both by listing and by restore.
- Text.Value: `parseInt` is exact on unbounded integers. The source's
  floating-point precision loss above 2^53 is not modelled, and digit strings
  are assumed short enough.
- Text.DigitValue: a non-digit character counts as zero. The model only reads
  digit strings, so this value is never observed.
- The strict reading accepts `24:00` (midnight at the end of the day) as the
  library does. Any other hour-24 time is refused.
