# Connector-Tracker schedule-slot selector in Dafny

Connector-Tracker is a single-page widget. When the "now" button is pressed, it stores
the press time together with a *scheduled time*. The scheduled time comes from
`getScheduledTime`, which takes three fixed daily slots (07:36, 07:52 and 08:36) on
today's date. It returns the first slot at or after the press. If every slot has
passed, it returns the last slot.

This project models that selector and the record the "now" handler builds. It proves
what the selector promises about its result.

- Instants are integers counting milliseconds, the unit of a JavaScript `Date`, on the
  local wall-clock time line. Day `d` starts at `d * DayMs`.
- `Schedule.FirstAtOrAfter` and `Schedule.Select` together model
  `times.find(time => now <= time) || times[times.length - 1]`. `FirstAtOrAfter` returns
  the index of the first element at or after `now`, as `findIndex` would. `Select` looks
  that element up, or takes the last element when there is none. It works over any
  non-empty table.
- `Schedule.GetScheduledTime(day, now)` places the three slots on day `day` and applies
  `Select`. "Today" is its own parameter because app.js:59 takes the date from a fresh
  `new Date()`, not from `now`.
- That `new Date()` sits inside the `map` callback, so the clock is read once per label.
  `Schedule.ScheduledTimeFromReadings(days, now)` keeps one date per label.
  `Schedule.ScheduledTimeSameDay` shows it equals `GetScheduledTime` when all three
  readings report the same date. `Schedule.ScheduledTimeMidnightStraddle` shows it can
  differ when the readings straddle midnight.
- `NowAction.RecordNow(day, now)` is the record `{timestamp, scheduledTime}` that the
  click handler passes to `addTimestamp`.

The `||` fallback at app.js:61 fires exactly when `find` yields `undefined`, because a
`Date` object is always truthy. The model therefore matches on an `Option` rather than
testing the value. The selector is a Dafny function, so it is deterministic and reads no
state by construction.

## Model

| member | source | states |
|---|---|---|
| Schedule.At | app.js:59 | the instant of a time of day on a date gives back that date and that minute of the day |
| Schedule.ClockTime | app.js:58 | a slot label `hh:mm` denotes a minute of the day below 24·60 whose hour and minute are `hh` and `mm` |
| Schedule.SlotsOn | app.js:58-60 | the `map` step: the table has as many instants as labels, and the i-th is the i-th time of day on the given date |
| Schedule.SlotsOnDays | app.js:58-60 | the `map` step with one clock reading per label: the i-th instant is the i-th time of day on the i-th reading's date |
| Schedule.ScheduledTimeFromReadings | app.js:57-62 | with one date reading per label, the result is one of the three labels placed on its own reading's date |
| Schedule.FirstAtOrAfter | app.js:61 | `find`: a found index holds a slot at or after `now` and every earlier slot is before `now`; nothing is found exactly when every slot is before `now` |
| Schedule.Select | app.js:61 | the result, first match or fallback, is always an element of the table |
| Schedule.GetScheduledTime | app.js:57-62 | the result is one of the three slots 07:36, 07:52, 08:36 and lies on the date the wall clock reports |
| Schedule.SelectFirstMatch | app.js:61 | if slot i is the first at or after `now` in table order, the result is slot i |
| Schedule.SelectAtOrAfterIff | app.js:61 | the result is at or after `now` if and only if some slot is, so the fallback is taken exactly when all slots have passed |
| Schedule.SelectFallback | app.js:61 | when every slot is before `now`, the result is the last slot and is strictly earlier than `now` |
| Schedule.SelectNearest | app.js:58-61 | over an ascending table no slot lies strictly between `now` and the result: it is the nearest upcoming slot |
| Schedule.SelectInclusive | app.js:61 | the boundary is inclusive: a `now` equal to a slot selects that slot |
| Schedule.SelectMonotone | app.js:58-61 | over an ascending table a later `now` never selects an earlier slot |
| Schedule.FirstAtOrAfterShift | app.js:61 | moving the table and `now` by the same amount leaves the index `find` returns unchanged |
| Schedule.SelectShift | app.js:61 | moving the table and `now` by the same amount moves the result by that amount |
| Schedule.SlotClockAscending | app.js:58 | the labels 07:36, 07:52, 08:36 are strictly ascending times of day |
| Schedule.SlotsOnAscending | app.js:58-60 | placing ascending times of day on one date gives ascending instants, all on that date |
| Schedule.GetScheduledTimeCases | app.js:57-62 | the full rule: up to 07:36 gives 07:36, then up to 07:52 gives 07:52, and after that gives 08:36 |
| Schedule.GetScheduledTimeExamples | app.js:57-62 | 07:40 gives 07:52, exactly 07:36 gives 07:36, and 09:00 gives 08:36, on any date |
| Schedule.GetScheduledTimeOtherDate | app.js:59-61 | slots are anchored to the wall clock's date: a `now` on an earlier date gets today's 07:36; one on a later date gets today's 08:36, which is before `now` |
| Schedule.GetScheduledTimeNearest | app.js:58-61 | the result is at or after `now` exactly when `now` is not past 08:36, and no slot of the day lies strictly between `now` and it |
| Schedule.GetScheduledTimeNextDay | app.js:57-62 | the result depends only on `now` and today's date: one day later in both gives the same slot one day later |
| Schedule.SlotsOnDaysSameDay | app.js:58-60 | when every reading reports the same date, the per-reading table is the single-date table |
| Schedule.ScheduledTimeSameDay | app.js:57-62 | when the three readings report the same date, the per-reading selector equals `GetScheduledTime` on that date |
| Schedule.ScheduledTimeMidnightStraddle | app.js:58-61 | readings that straddle midnight can select 07:52 of the next day for a press at the end of a day, an instant the single-date selector gives for no date |
| NowAction.RecordNow | app.js:92-94 | the stored record carries the press time as `timestamp` and the selector's answer for that very timestamp as `scheduledTime`; it lies on today's date and is not before the press exactly when the press is not after 08:36 |

## Left out

- The storage layer (`openDatabase`, `getStore`, `addTimestamp`, `getAllTimestamps`, `clearAllTimestamps`, app.js:8-54 and 65-77): these are asynchronous wrappers over the browser's IndexedDB. Key assignment, ordering and clearing are that engine's behaviour. Only the contents of the record passed to `addTimestamp` are modelled.
- `handleError` (app.js:1-5): it only logs to the console.
- The DOM event handlers, table rendering, modal toggling and the three-second hide timers (app.js:79-155): user-interface code.
- Reading the clock: the press time (`new Date()` at app.js:92) becomes the parameter `now`. The per-label date readings at app.js:59 become the parameter `days` of `Schedule.ScheduledTimeFromReadings`.
- Schedule.GetScheduledTime: takes the three per-label clock readings at app.js:59 to fall on one date, `day`. Readings that straddle midnight are covered only by `Schedule.ScheduledTimeFromReadings`. `NowAction.RecordNow` builds on the single-date form.
- Time zones and daylight-saving time: every day is modelled as exactly 24 hours of local wall-clock time. On a day when the clock shifts, the real `Date` for 07:36 can differ from `day * DayMs + 456 * MinuteMs`.
- Building a `Date` from the text `toDateString() + " hh:mm"` (app.js:59): the parse is replaced by the arithmetic of `Schedule.At`. The string is not in ECMAScript's date-time string format, so its parsing is up to each engine. An invalid `Date` (NaN), which mainstream engines do not produce for it, is not modelled.
- The finite range of JavaScript time values (±8.64·10^15 ms): instants are unbounded integers.
- `toLocaleString` formatting for display (app.js:96, 108-110): locale-dependent output.
