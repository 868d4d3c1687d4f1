# reminder-for-discord, modelled in Dafny

`main.go` of reminder-for-discord runs once per invocation (an external
scheduler starts it). It reads the events of a Google Calendar, keeps those
that start tomorrow in Tokyo time, and posts one Discord message per kept
event to a webhook. This project models the core of
that run and proves properties of the model:

- **The window** (`TomorrowWindow`). Tomorrow runs from 00:00 Tokyo time on
  the day after today to 24 hours later. An event is kept when its start is
  strictly after the first instant and strictly before the second
  (`InWindow`).
- **Classification** (`Classify`). A start `DateTime` makes the event timed,
  and both `DateTime` fields are then parsed as RFC 3339. Otherwise a start
  `Date` makes it all-day, and both `Date` fields are then parsed with the
  layout `2006-01-02`. A failed parse, or an event with neither start field,
  skips the event.
- **Messages**. Each kept event gets one of the two `Sprintf` templates:
  `AllDayMessage`, or `TimedMessage` with times formatted as
  `2006-01-02 15:04` in Tokyo time.
- **The loop** (`NotifyTomorrow`). The method walks the events with the same
  branches and `continue`s as the Go loop. It is proved to send exactly
  `FilterMap(Notifier(window, parse), events)`, the in-order filter-map of
  the per-event decision. A failed send is only recorded and the loop goes
  on; only status 200 counts as delivered.

Modules:

- `Wrappers`: `Option`.
- `Decimal`: fixed-width decimal digits, the way Go's time package writes
  and reads them.
- `Calendar`: proleptic Gregorian dates and day numbers.
- `Clock`: instants, the Tokyo wall clock, and the two date layouts.
- `FilterMaps`: the generic filter-map.
- `Reminder`: the entities, the operations and the loop of `main`.
- `ReminderProperties`: the properties relating them.

How Go values are represented:

- An instant is an integer count of nanoseconds since 1970-01-01T00:00:00Z.
  Go's `time.Time` compares at that precision.
- Asia/Tokyo is a fixed offset of +9 hours.
- `time.Date` normalises an out-of-range day linearly, so `Date(y, m, d + 1)`
  is the day after `Date(y, m, d)` even at the end of a month or a year
  (`NextDate`, `CivilFromDaysSucc`).

`sendDiscordNotification` (main.go:70) accepts only `http.StatusOK`. Every
other status, 204 No Content included, is an error for that event only
(`DeliveryOk`, `OnlyOkDelivers`).

## Model

| member | source | states |
|---|---|---|
| Calendar.CivilFromDays | main.go:100-103 | the Tokyo year, month and day of a day number form a valid date whose day number is that number |
| Calendar.CivilFromDaysOfDate | main.go:103 | converting a valid date to its day number and back gives the same date |
| Calendar.DaysFromCivilInjective | main.go:103 | two valid dates with the same day number are equal |
| Calendar.NextDate | main.go:103 | the normalised `day + 1` is a valid date exactly one day number later |
| Calendar.CivilFromDaysSucc | main.go:103 | the date of day number n + 1 is the day after the date of day number n |
| Clock.LocalDate | main.go:100 | `now.In(location)` read as a date: the valid Tokyo calendar date of an instant |
| Clock.LocalHour | main.go:150-151 | the Tokyo hour of an instant, always in 0..23 |
| Clock.LocalMinute | main.go:150-151 | the Tokyo minute of an instant, always in 0..59 |
| Clock.LocalMidnight | main.go:103 | `time.Date(y, m, d, 0, 0, 0, 0, Asia/Tokyo)`: local midnight of a date, day normalised linearly |
| Clock.FormatDate | main.go:173 | the `2006-01-02` part of the layout: year padded to four digits (with a sign when negative), month and day to two |
| Clock.FormatMinute | main.go:173 | `Format("2006-01-02 15:04")` after conversion to Tokyo time |
| Clock.ParseDateText | main.go:133-138 | the `2006-01-02` parser: whatever it accepts is a valid date of year 0..9999 whose formatted text is exactly the input |
| Clock.ParseDate | main.go:133-138 | a date-only value parses iff its text parses; the instant is a UTC midnight, 09:00 Tokyo time on that same date |
| Clock.DateTextAccepted | main.go:133-138 | the parser accepts a text iff it is the formatted text of some valid date of year 0..9999 |
| Clock.UtcMidnightIsNineLocal | main.go:133-151 | UTC midnight of a date is 09:00 in Tokyo on that same date |
| Clock.ParseFormatDate | main.go:133-138 | formatting a date of year 0..9999 as `2006-01-02` and parsing it back gives the date |
| Clock.WallClock | main.go:150-151 | an instant given as a Tokyo day, hour and minute has exactly those local fields |
| Clock.FormatMinutePieces | main.go:173 | for Tokyo years 0..9999, `2006-01-02 15:04` is 16 characters: the local date, a space, the two-digit hour, ':' and the two-digit minute |
| Clock.FormatMinuteSameIff | main.go:173 | two instants print the same iff they fall in the same Tokyo minute |
| Clock.FormatOnTheHour | main.go:173 | an instant h whole hours after local midnight of a date prints as that date at hour h and minute 00 |
| Clock.FormatMinuteSingleLine | main.go:172-173 | a formatted instant contains no line break |
| Reminder.TomorrowWindow | main.go:99-105 | the window spans exactly 24 hours, starting at a Tokyo midnight that is the day after today, strictly after now and at most one day later |
| Reminder.InWindow | main.go:154 | `startTime.After(tomorrowStart) && startTime.Before(tomorrowEnd)`: strictly between the two ends |
| Reminder.Classify | main.go:116-147 | an all-day result comes only from an event without a start `DateTime` but with a start `Date`; a timed result only from one with a start `DateTime` |
| Reminder.AllDayMessage | main.go:170 | the all-day `Sprintf` template over the title and the place |
| Reminder.TimedMessage | main.go:172-173 | the timed `Sprintf` template over the title, the place and the two formatted times |
| Reminder.Message | main.go:168-174 | picks the all-day template, or the timed one with start and end formatted by `FormatMinute` |
| Reminder.NotificationFor | main.go:119-174 | an event yields a message iff it classifies and its start is strictly inside the window |
| Reminder.Notifier | main.go:114-183 | one visit of the event loop as a function of the event |
| Reminder.Notifications | main.go:114-184 | the messages of the whole loop: the filter-map of `Notifier` over the events |
| Reminder.DeliveryOk | main.go:70-73 | a send is delivered iff the response is status 200 |
| Reminder.SkipStep | main.go:119-147 | an event that classification skips adds nothing to the messages sent |
| Reminder.KeepStep | main.go:149-183 | a classified event appends its message exactly when its start is inside the window |
| Reminder.NotifyTomorrow | main.go:114-184 | the loop sends exactly the in-order filter-map of the events, and records for the k-th send whether the webhook answered 200 |
| FilterMaps.FilterMap | main.go:114-184 | the outputs of the elements in order, skipping those that give none; never more outputs than elements |
| FilterMaps.FilterMapSnoc | main.go:114-184 | visiting one more event appends its message, if it has one |
| FilterMaps.FilterMapAppend | main.go:114-184 | the messages for two consecutive runs of events are the concatenation of each run's messages |
| FilterMaps.FilterMapAround | main.go:114-184 | each event contributes its message, or nothing, exactly at its own place in the order |
| FilterMaps.FilterMapAll | main.go:114-184 | when every event is notified, there is one message per event, in the events' order |
| FilterMaps.FilterMapNone | main.go:114-184 | when no event is notified, nothing is sent |
| FilterMaps.FilterMapMembers | main.go:114-184 | a message is sent iff some event yields it |
| ReminderProperties.InWindowIffTomorrow | main.go:153-154 | an instant is inside the window iff it is on tomorrow's Tokyo day and is not that day's midnight |
| ReminderProperties.BoundariesExcluded | main.go:154 | neither tomorrow's 00:00 nor the following 00:00 is inside the window |
| ReminderProperties.DateTimeTakesPrecedence | main.go:119-147 | with a start `DateTime`, the `Date` fields change nothing and the event is never all-day |
| ReminderProperties.DateBranchIgnoresDateTimeParser | main.go:131-143 | without a start `DateTime` the RFC 3339 parser is never consulted and any result is all-day |
| ReminderProperties.NoStartMarkerSkipped | main.go:144-146 | an event with neither start field yields no message |
| ReminderProperties.ParseFailureSkips | main.go:121-141 | a failed parse of the start or of the end, in the branch taken, yields no message |
| ReminderProperties.MixedMarkersSkipped | main.go:126-141 | a timed start with an empty end `DateTime`, or a date-only start with an empty end `Date`, is skipped |
| ReminderProperties.ClassifyInstants | main.go:119-143 | the start and end of a classified event are the parses of the branch chosen |
| ReminderProperties.TimedEventClassified | main.go:119-130 | a start `DateTime` whose two values parse classifies the event as timed, at the parsed instants |
| ReminderProperties.AllDayEventClassified | main.go:131-143 | without a start `DateTime`, a start `Date` whose two values parse classifies the event as all-day, at the parsed instants |
| ReminderProperties.ClassifiedIff | main.go:119-147 | an event is classified iff the branch its start selects parses both of its values |
| ReminderProperties.AllDayNotifiedIffTomorrow | main.go:131-154 | an all-day event is notified iff its start date is tomorrow's Tokyo date |
| ReminderProperties.DateNotifiedIffTomorrow | main.go:133-154 | UTC midnight of a date is inside the window iff the date is tomorrow's Tokyo date |
| ReminderProperties.DecisionIgnoresEnd | main.go:150-154 | whether an event is notified depends on its start instant only |
| ReminderProperties.AllDayMessageLines | main.go:170 | with a single-line title and place, the all-day message is exactly the lines mention, title, place, all-day marker |
| ReminderProperties.TimedMessageLines | main.go:172-173 | with single-line fields, the timed message is exactly the lines mention, title, place, start, end |
| ReminderProperties.TimedNotificationLines | main.go:172-173 | a timed event's message lines carry its start and end in `2006-01-02 15:04` Tokyo time |
| ReminderProperties.MessageIgnoresDescription | main.go:168-174 | the description never reaches the message |
| ReminderProperties.HolidayMessage | main.go:170 | the all-day message for "Holiday" at "Office" is the exact expected text |
| ReminderProperties.TenToElevenMessage | main.go:172-173 | a timed event from 10:00 to 11:00 local on a date shows that date with " 10:00" and " 11:00" |
| ReminderProperties.OnlyOkDelivers | main.go:65-73 | a send succeeds iff the response is status 200; 204 and transport errors are failures |

## Left out

- `getCalendarService` (main.go:19-42): credentials and the Calendar client are I/O. Its failure ends the run before the loop.
- `getEvents` (main.go:45-53): the event list is an input of `NotifyTomorrow`. Its `TimeMin` and `startTime` ordering belong to the Calendar API.
- `godotenv.Load`, `os.Getenv`, `log.Fatalf` (main.go:78-97): start-up I/O whose failures all end the run before the loop.
- `time.LoadLocation("Asia/Tokyo")` (main.go:94): replaced by the fixed +9 hour offset. Tokyo has had no daylight saving time since 1951.
- `time.Now()` (main.go:100): the parameter `now`.
- `time.Parse(time.RFC3339, _)` (main.go:121, 126): the parameter `parseRfc3339`, with `None` for an error. Only the date-only layout is modelled exactly.
- `json.Marshal`, `http.Post` and `resp.Body.Close` (main.go:57-69): the parameter `webhook(k, message)` gives the status of the k-th POST, with `None` for a transport or marshalling error.
- `log.Printf` (main.go:123-181): log output is not modelled, including the `15:04:05` times logged at main.go:163-164.
- Missing `Start`/`End` values (nil in Go): every event is assumed to carry both markers. The Go code would panic on a nil marker.
- Instant range: `time.Time` is bounded; the model's instants are unbounded integers.
- Clock.FormatMinutePieces: stated only for Tokyo years 0..9999; other years print a longer or signed year field.
- Clock.FormatMinuteSameIff: proved only for Tokyo years 0..9999, the years `2006` writes as exactly four digits.
- Clock.ParseFormatDate: stated only for years 0..9999, because the parser reads exactly four year digits.
- NotifyTomorrow: returns the messages sent and whether each was delivered. The Go loop only logs the outcome of each send.
