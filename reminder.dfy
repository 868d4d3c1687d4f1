/**
 * The "tomorrow in Tokyo" reminder of main.go: compute the window of the
 * next Tokyo calendar day, classify each calendar event as timed or all-day,
 * keep the events whose start lies strictly inside the window, and send one
 * Discord message per kept event, in the order the calendar returned them.
 */
module Reminder {
  import opened Wrappers
  import opened Calendar
  import opened Clock
  import opened FilterMaps

  /** A start or end marker of a calendar event; the empty string means absent. */
  datatype EventDateTime = EventDateTime(dateTime: string, date: string)

  datatype Event = Event(
    summary: string,
    description: string,
    location: string,
    start: EventDateTime,
    end: EventDateTime)

  /** The target day, from `start` to `end`, both excluded. */
  datatype Window = Window(start: Instant, end: Instant)

  /** What classification learns of an event: its two instants and its kind. */
  datatype Timing = Timing(start: Instant, end: Instant, allDay: bool)

  /**
   * `tomorrowStart` is `time.Date` of today's Tokyo year, month and day + 1
   * at 00:00 Tokyo time, and `tomorrowEnd` is 24 hours later.
   */
  function TomorrowWindow(now: Instant): (w: Window)
    ensures w.end - w.start == NanosPerDay
    ensures (w.start + TokyoOffset) % NanosPerDay == 0
    ensures LocalDay(w.start) == LocalDay(now) + 1
    ensures LocalDate(w.start) == NextDate(LocalDate(now))
    ensures now < w.start <= now + NanosPerDay
  {
    var today := LocalDate(now);
    var start := LocalMidnight(Date(today.year, today.month, today.day + 1));
    assert start == (LocalDay(now) + 1) * NanosPerDay - TokyoOffset;
    CivilFromDaysSucc(LocalDay(now));
    Window(start, start + NanosPerDay)
  }

  /** `startTime.After(tomorrowStart) && startTime.Before(tomorrowEnd)`. */
  predicate InWindow(t: Instant, w: Window) {
    w.start < t && t < w.end
  }

  /**
   * The branch of the event loop that reads the start and end markers.
   * `parseRfc3339` stands for `time.Parse(time.RFC3339, _)`, with `None` for
   * a parse error. A start `DateTime` decides the event is timed whatever its
   * `Date` holds; otherwise a start `Date` makes it all-day; otherwise, or on
   * any parse error, the event is skipped.
   */
  function Classify(e: Event, parseRfc3339: string -> Option<Instant>): (r: Option<Timing>)
    ensures r.Some? && r.value.allDay ==> e.start.dateTime == "" && e.start.date != ""
    ensures r.Some? && !r.value.allDay ==> e.start.dateTime != ""
  {
    if e.start.dateTime != "" then
      match (parseRfc3339(e.start.dateTime), parseRfc3339(e.end.dateTime))
      case (Some(s), Some(t)) => Some(Timing(s, t, false))
      case _ => None
    else if e.start.date != "" then
      match (ParseDate(e.start.date), ParseDate(e.end.date))
      case (Some(s), Some(t)) => Some(Timing(s, t, true))
      case _ => None
    else
      None
  }

  const Mention: string := "@here"
  const TitleLabel: string := "イベント名: "
  const PlaceLabel: string := "場所: "
  const AllDayMarker: string := "終日イベント"
  const StartLabel: string := "開始時間: "
  const EndLabel: string := "終了時間: "

  function AllDayMessage(e: Event): (m: string) {
    Mention + "\n" + (TitleLabel + e.summary + "\n" + (PlaceLabel + e.location + "\n" + AllDayMarker))
  }

  /** The timed template; `startText` and `endText` are the formatted start and end. */
  function TimedMessage(e: Event, startText: string, endText: string): (m: string) {
    Mention + "\n" + (TitleLabel + e.summary + "\n" + (PlaceLabel + e.location + "\n"
      + (StartLabel + startText + "\n" + (EndLabel + endText))))
  }

  function Message(e: Event, t: Timing): (m: string) {
    if t.allDay then AllDayMessage(e) else TimedMessage(e, FormatMinute(t.start), FormatMinute(t.end))
  }

  /** The message one loop iteration sends for `e`, if it sends one. */
  function NotificationFor(w: Window, e: Event, parseRfc3339: string -> Option<Instant>): (r: Option<string>)
    ensures r.Some? <==> Classify(e, parseRfc3339).Some? && InWindow(Classify(e, parseRfc3339).value.start, w)
  {
    match Classify(e, parseRfc3339)
    case Some(t) => if InWindow(t.start, w) then Some(Message(e, t)) else None
    case None => None
  }

  /** One visit of the event loop, as a function value. */
  function Notifier(w: Window, parseRfc3339: string -> Option<Instant>): (f: Event -> Option<string>) {
    e => NotificationFor(w, e, parseRfc3339)
  }

  /** The messages of `events`, in order: the filter-map of the event loop. */
  function Notifications(w: Window, events: seq<Event>, parseRfc3339: string -> Option<Instant>): (sent: seq<string>) {
    FilterMap(Notifier(w, parseRfc3339), events)
  }

  /** An event that classification skips adds no message. */
  lemma SkipStep(w: Window, events: seq<Event>, e: Event, parseRfc3339: string -> Option<Instant>)
    requires Classify(e, parseRfc3339) == None
    ensures Notifications(w, events + [e], parseRfc3339) == Notifications(w, events, parseRfc3339)
  {
    FilterMapSnoc(Notifier(w, parseRfc3339), events, e);
  }

  /** A classified event adds its message exactly when its start is in the window. */
  lemma KeepStep(w: Window, events: seq<Event>, e: Event, parseRfc3339: string -> Option<Instant>, t: Timing)
    requires Classify(e, parseRfc3339) == Some(t)
    ensures Notifications(w, events + [e], parseRfc3339)
      == Notifications(w, events, parseRfc3339) + (if InWindow(t.start, w) then [Message(e, t)] else [])
  {
    FilterMapSnoc(Notifier(w, parseRfc3339), events, e);
  }

  /** `sendDiscordNotification` reports success iff the POST answered 200 OK. */
  predicate DeliveryOk(response: Option<int>) {
    response == Some(200)
  }

  /** `delivered[k]` records whether the k-th send of `sent` succeeded. */
  predicate Recorded(sent: seq<string>, delivered: seq<bool>, webhook: (nat, string) -> Option<int>) {
    |delivered| == |sent| && forall k :: 0 <= k < |sent| ==> delivered[k] == DeliveryOk(webhook(k, sent[k]))
  }

  lemma RecordStep(sent: seq<string>, delivered: seq<bool>, webhook: (nat, string) -> Option<int>, message: string)
    requires Recorded(sent, delivered, webhook)
    ensures Recorded(sent + [message], delivered + [DeliveryOk(webhook(|sent|, message))], webhook)
  {
  }

  lemma PrefixStep<T>(s: seq<T>, i: nat)
    requires i < |s|
    ensures s[..i + 1] == s[..i] + [s[i]]
  {
  }

  /**
   * The event loop of `main`. `webhook(k, msg)` stands for the response to
   * the k-th POST of the run (`None` when the request itself failed); a
   * failed send is only recorded and the loop goes on.
   */
  method NotifyTomorrow(
    now: Instant,
    events: seq<Event>,
    parseRfc3339: string -> Option<Instant>,
    webhook: (nat, string) -> Option<int>)
    returns (sent: seq<string>, delivered: seq<bool>)
    ensures sent == Notifications(TomorrowWindow(now), events, parseRfc3339)
    ensures Recorded(sent, delivered, webhook)
  {
    var window := TomorrowWindow(now);
    sent, delivered := [], [];
    for i := 0 to |events|
      invariant sent == Notifications(window, events[..i], parseRfc3339)
      invariant Recorded(sent, delivered, webhook)
    {
      var event := events[i];
      PrefixStep(events, i);
      var startTime, endTime: Instant;
      var isAllDay := false;
      if event.start.dateTime != "" {
        var parsed := parseRfc3339(event.start.dateTime);
        if parsed.None? {
          SkipStep(window, events[..i], event, parseRfc3339);
          continue;
        }
        startTime := parsed.value;
        parsed := parseRfc3339(event.end.dateTime);
        if parsed.None? {
          SkipStep(window, events[..i], event, parseRfc3339);
          continue;
        }
        endTime := parsed.value;
        assert Classify(event, parseRfc3339) == Some(Timing(startTime, endTime, false));
      } else if event.start.date != "" {
        var parsed := ParseDate(event.start.date);
        if parsed.None? {
          SkipStep(window, events[..i], event, parseRfc3339);
          continue;
        }
        startTime := parsed.value;
        parsed := ParseDate(event.end.date);
        if parsed.None? {
          SkipStep(window, events[..i], event, parseRfc3339);
          continue;
        }
        endTime := parsed.value;
        isAllDay := true;
        assert Classify(event, parseRfc3339) == Some(Timing(startTime, endTime, true));
      } else {
        SkipStep(window, events[..i], event, parseRfc3339);
        continue;
      }
      KeepStep(window, events[..i], event, parseRfc3339, Timing(startTime, endTime, isAllDay));
      if window.start < startTime && startTime < window.end {
        var message;
        if isAllDay {
          message := AllDayMessage(event);
        } else {
          message := TimedMessage(event, FormatMinute(startTime), FormatMinute(endTime));
        }
        var response := webhook(|sent|, message);
        RecordStep(sent, delivered, webhook, message);
        sent := sent + [message];
        delivered := delivered + [DeliveryOk(response)];
      }
    }
    assert events[..|events|] == events;
  }
}
