/**
 * What the reminder promises: which instants fall in the window, how the
 * start and end markers are read, what each message says, and that the
 * messages sent are the in-order filter-map of the event list.
 */
module ReminderProperties {
  import opened Wrappers
  import opened Decimal
  import opened Calendar
  import opened Clock
  import opened Reminder

  // ---------------------------------------------------------------------
  // The window

  /**
   * An instant is notified iff it falls on tomorrow's Tokyo calendar day
   * and is not that day's midnight.
   */
  lemma InWindowIffTomorrow(now: Instant, t: Instant)
    ensures InWindow(t, TomorrowWindow(now))
      <==> LocalDay(t) == LocalDay(now) + 1 && (t + TokyoOffset) % NanosPerDay != 0
  {
    var w := TomorrowWindow(now);
    var n := LocalDay(now) + 1;
    assert w.start + TokyoOffset == n * NanosPerDay;
    var x := t + TokyoOffset;
    assert x == (x / NanosPerDay) * NanosPerDay + x % NanosPerDay;
    if InWindow(t, w) {
      assert n * NanosPerDay < x < (n + 1) * NanosPerDay;
      assert x / NanosPerDay == n;
    }
  }

  /** Neither end of the window is itself notified. */
  lemma BoundariesExcluded(now: Instant)
    ensures !InWindow(TomorrowWindow(now).start, TomorrowWindow(now))
    ensures !InWindow(TomorrowWindow(now).end, TomorrowWindow(now))
  {
  }

  // ---------------------------------------------------------------------
  // Reading the markers

  /** A start `DateTime` makes the event timed, whatever the `Date` fields hold. */
  lemma DateTimeTakesPrecedence(e: Event, startDate: string, endDate: string, parseRfc3339: string -> Option<Instant>)
    requires e.start.dateTime != ""
    ensures var e' := e.(start := e.start.(date := startDate), end := e.end.(date := endDate));
      Classify(e', parseRfc3339) == Classify(e, parseRfc3339)
    ensures Classify(e, parseRfc3339).Some? ==> !Classify(e, parseRfc3339).value.allDay
  {
  }

  /** Without a start `DateTime`, the RFC 3339 parser is never consulted. */
  lemma DateBranchIgnoresDateTimeParser(e: Event, p: string -> Option<Instant>, q: string -> Option<Instant>)
    requires e.start.dateTime == ""
    ensures Classify(e, p) == Classify(e, q)
    ensures Classify(e, p).Some? ==> Classify(e, p).value.allDay
  {
  }

  /** An event with neither start field is skipped. */
  lemma NoStartMarkerSkipped(w: Window, e: Event, parseRfc3339: string -> Option<Instant>)
    requires e.start.dateTime == "" && e.start.date == ""
    ensures NotificationFor(w, e, parseRfc3339) == None
  {
  }

  /** Any parse failure of the start or of the end skips the event. */
  lemma ParseFailureSkips(w: Window, e: Event, parseRfc3339: string -> Option<Instant>)
    requires
      || (e.start.dateTime != ""
          && (parseRfc3339(e.start.dateTime).None? || parseRfc3339(e.end.dateTime).None?))
      || (e.start.dateTime == "" && e.start.date != ""
          && (ParseDate(e.start.date).None? || ParseDate(e.end.date).None?))
    ensures NotificationFor(w, e, parseRfc3339) == None
  {
  }

  /**
   * Mixed markers: a timed start with a date-only end fails to parse the
   * empty end `DateTime`, and a date-only start with a timed end fails to
   * parse the empty end `Date`.
   */
  lemma MixedMarkersSkipped(e: Event, parseRfc3339: string -> Option<Instant>)
    requires parseRfc3339("") == None
    requires (e.start.dateTime != "" && e.end.dateTime == "")
          || (e.start.dateTime == "" && e.start.date != "" && e.end.date == "")
    ensures Classify(e, parseRfc3339) == None
  {
  }

  /** A successful classification returns the parsed instants, in the branch chosen. */
  lemma ClassifyInstants(e: Event, parseRfc3339: string -> Option<Instant>)
    requires Classify(e, parseRfc3339).Some?
    ensures var t := Classify(e, parseRfc3339).value;
      if t.allDay then
        ParseDate(e.start.date) == Some(t.start) && ParseDate(e.end.date) == Some(t.end)
      else
        parseRfc3339(e.start.dateTime) == Some(t.start) && parseRfc3339(e.end.dateTime) == Some(t.end)
  {
  }

  /** A start `DateTime` whose two values parse classifies the event as timed, at those instants. */
  lemma TimedEventClassified(e: Event, parseRfc3339: string -> Option<Instant>)
    requires e.start.dateTime != ""
    requires parseRfc3339(e.start.dateTime).Some? && parseRfc3339(e.end.dateTime).Some?
    ensures Classify(e, parseRfc3339)
      == Some(Timing(parseRfc3339(e.start.dateTime).value, parseRfc3339(e.end.dateTime).value, false))
  {
  }

  /** Without a start `DateTime`, a start `Date` whose two values parse classifies the event as all-day. */
  lemma AllDayEventClassified(e: Event, parseRfc3339: string -> Option<Instant>)
    requires e.start.dateTime == "" && e.start.date != ""
    requires ParseDate(e.start.date).Some? && ParseDate(e.end.date).Some?
    ensures Classify(e, parseRfc3339)
      == Some(Timing(ParseDate(e.start.date).value, ParseDate(e.end.date).value, true))
  {
  }

  /** An event is classified iff the branch its start chooses parses both of its values. */
  lemma ClassifiedIff(e: Event, parseRfc3339: string -> Option<Instant>)
    ensures Classify(e, parseRfc3339).Some? <==>
      || (e.start.dateTime != ""
          && parseRfc3339(e.start.dateTime).Some? && parseRfc3339(e.end.dateTime).Some?)
      || (e.start.dateTime == "" && e.start.date != ""
          && ParseDateText(e.start.date).Some? && ParseDateText(e.end.date).Some?)
  {
  }

  /**
   * An all-day event starts at UTC midnight of its date, 09:00 in Tokyo, so
   * it is notified iff its start date is tomorrow's Tokyo date.
   */
  lemma AllDayNotifiedIffTomorrow(now: Instant, e: Event, parseRfc3339: string -> Option<Instant>)
    requires Classify(e, parseRfc3339).Some? && Classify(e, parseRfc3339).value.allDay
    ensures InWindow(Classify(e, parseRfc3339).value.start, TomorrowWindow(now))
      <==> ParseDateText(e.start.date) == Some(NextDate(LocalDate(now)))
  {
    var d := ParseDateText(e.start.date).value;
    assert Classify(e, parseRfc3339).value.start == UtcMidnight(d);
    DateNotifiedIffTomorrow(now, d);
  }

  /** UTC midnight of a date lies in the window iff the date is tomorrow's Tokyo date. */
  lemma DateNotifiedIffTomorrow(now: Instant, d: Date)
    requires IsValidDate(d)
    ensures InWindow(UtcMidnight(d), TomorrowWindow(now)) <==> d == NextDate(LocalDate(now))
  {
    var t := UtcMidnight(d);
    var tomorrow := NextDate(LocalDate(now));
    UtcMidnightIsNineLocal(d);
    InWindowIffTomorrow(now, t);
    var n := DaysFromCivil(d);
    assert t + TokyoOffset == n * NanosPerDay + TokyoOffset;
    assert (t + TokyoOffset) % NanosPerDay != 0;
    assert LocalDay(t) == n;
    assert DaysFromCivil(tomorrow) == LocalDay(now) + 1;
    if n == LocalDay(now) + 1 {
      DaysFromCivilInjective(d, tomorrow);
    }
  }

  /** Whether an event is notified depends on its start instant only, never on its end. */
  lemma DecisionIgnoresEnd(w: Window, e: Event, e': Event, parseRfc3339: string -> Option<Instant>)
    requires Classify(e, parseRfc3339).Some? && Classify(e', parseRfc3339).Some?
    requires Classify(e, parseRfc3339).value.start == Classify(e', parseRfc3339).value.start
    ensures NotificationFor(w, e, parseRfc3339).Some? == NotificationFor(w, e', parseRfc3339).Some?
  {
  }

  // ---------------------------------------------------------------------
  // Messages

  /** `strings.Split(s, "\n")`: the lines of `s`. */
  function Lines(s: string): (ls: seq<string>)
    ensures |ls| >= 1
    decreases |s|
  {
    if s == [] then [""]
    else
      var rest := Lines(s[1..]);
      if s[0] == '\n' then [""] + rest else [[s[0]] + rest[0]] + rest[1..]
  }

  lemma {:induction false} LinesOfSingleLine(a: string)
    requires '\n' !in a
    ensures Lines(a) == [a]
    decreases |a|
  {
    if a != [] {
      LinesOfSingleLine(a[1..]);
      assert [a[0]] + a[1..] == a;
    }
  }

  lemma {:induction false} LinesOfJoin(a: string, b: string)
    requires '\n' !in a
    ensures Lines(a + "\n" + b) == [a] + Lines(b)
    decreases |a|
  {
    if a == [] {
      assert (a + "\n" + b)[1..] == b;
    } else {
      assert (a + "\n" + b)[1..] == a[1..] + "\n" + b;
      LinesOfJoin(a[1..], b);
      assert [a[0]] + a[1..] == a;
    }
  }

  /** When the title and place are single lines, an all-day message is exactly these four lines. */
  lemma AllDayMessageLines(e: Event)
    requires '\n' !in e.summary && '\n' !in e.location
    ensures Lines(AllDayMessage(e)) == [Mention, TitleLabel + e.summary, PlaceLabel + e.location, AllDayMarker]
  {
    var l2, l3 := TitleLabel + e.summary, PlaceLabel + e.location;
    LinesOfJoin(Mention, l2 + "\n" + (l3 + "\n" + AllDayMarker));
    LinesOfJoin(l2, l3 + "\n" + AllDayMarker);
    LinesOfJoin(l3, AllDayMarker);
    LinesOfSingleLine(AllDayMarker);
  }

  /** When the title, place and both times are single lines, a timed message is exactly these five lines. */
  lemma TimedMessageLines(e: Event, startText: string, endText: string)
    requires '\n' !in e.summary && '\n' !in e.location
    requires '\n' !in startText && '\n' !in endText
    ensures Lines(TimedMessage(e, startText, endText)) == [
      Mention, TitleLabel + e.summary, PlaceLabel + e.location,
      StartLabel + startText, EndLabel + endText]
  {
    var l2, l3 := TitleLabel + e.summary, PlaceLabel + e.location;
    var l4, l5 := StartLabel + startText, EndLabel + endText;
    LinesOfJoin(Mention, l2 + "\n" + (l3 + "\n" + (l4 + "\n" + l5)));
    LinesOfJoin(l2, l3 + "\n" + (l4 + "\n" + l5));
    LinesOfJoin(l3, l4 + "\n" + l5);
    LinesOfJoin(l4, l5);
    LinesOfSingleLine(l5);
  }

  /** The message of a timed event: its start and end in "2006-01-02 15:04" Tokyo time, each on its own line. */
  lemma TimedNotificationLines(e: Event, start: Instant, end: Instant)
    requires '\n' !in e.summary && '\n' !in e.location
    ensures Lines(Message(e, Timing(start, end, false))) == [
      Mention, TitleLabel + e.summary, PlaceLabel + e.location,
      StartLabel + FormatMinute(start), EndLabel + FormatMinute(end)]
  {
    FormatMinuteSingleLine(start);
    FormatMinuteSingleLine(end);
    TimedMessageLines(e, FormatMinute(start), FormatMinute(end));
  }

  /** The description never reaches the message. */
  lemma MessageIgnoresDescription(e: Event, description: string, t: Timing)
    ensures Message(e.(description := description), t) == Message(e, t)
  {
  }

  /** The all-day message for an event titled "Holiday" at "Office". */
  lemma HolidayMessage(e: Event)
    requires e.summary == "Holiday" && e.location == "Office"
    ensures AllDayMessage(e) == "@here\nイベント名: Holiday\n場所: Office\n終日イベント"
  {
  }

  lemma TenAndElevenOClock()
    ensures ClockText(10, 0) == " 10:00" && ClockText(11, 0) == " 11:00"
  {
    assert Digits(1) == "1" && Digits(0) == "0";
    assert Digits(10) == "10" && Digits(11) == "11";
    assert Padded(10, 2) == "10" && Padded(11, 2) == "11" && Padded(0, 2) == "00";
  }

  /** A timed event from 10:00 to 11:00 on Tokyo date `d` shows those two times on `d`. */
  lemma TenToElevenMessage(e: Event, d: Date)
    requires IsValidDate(d)
    ensures Message(e, Timing(LocalMidnight(d) + 10 * NanosPerHour, LocalMidnight(d) + 11 * NanosPerHour, false))
      == TimedMessage(e, FormatDate(d) + " 10:00", FormatDate(d) + " 11:00")
  {
    TenOClock(d);
    ElevenOClock(d);
  }

  lemma TenOClock(d: Date)
    requires IsValidDate(d)
    ensures FormatMinute(LocalMidnight(d) + 10 * NanosPerHour) == FormatDate(d) + " 10:00"
  {
    FormatOnTheHour(d, 10);
    TenAndElevenOClock();
  }

  lemma ElevenOClock(d: Date)
    requires IsValidDate(d)
    ensures FormatMinute(LocalMidnight(d) + 11 * NanosPerHour) == FormatDate(d) + " 11:00"
  {
    FormatOnTheHour(d, 11);
    TenAndElevenOClock();
  }

  // ---------------------------------------------------------------------
  // The webhook

  /** Only 200 OK counts as delivered: 204 No Content, other codes and transport errors do not. */
  lemma OnlyOkDelivers(response: Option<int>)
    ensures DeliveryOk(response) <==> response.Some? && response.value == 200
    ensures !DeliveryOk(Some(204)) && !DeliveryOk(None)
  {
  }
}
