/**
 * Instants and the Asia/Tokyo wall clock as the reminder uses them: an
 * instant is a count of nanoseconds since 1970-01-01T00:00:00Z (Go's
 * `time.Time` compares at that precision), and Tokyo is nine hours ahead of
 * UTC all year, with no daylight saving time.
 */
module Clock {
  import opened Wrappers
  import opened Decimal
  import opened Calendar

  type Instant = int

  const NanosPerMinute: int := 60_000_000_000
  const NanosPerHour: int := 3_600_000_000_000
  const NanosPerDay: int := 86_400_000_000_000
  const MinutesPerDay: int := 1440

  /** Asia/Tokyo is UTC+9. */
  const TokyoOffset: int := 32_400_000_000_000

  /** Number of the Tokyo calendar day holding `t` (day 0 is 1970-01-01). */
  function LocalDay(t: Instant): (n: int) {
    (t + TokyoOffset) / NanosPerDay
  }

  function LocalDate(t: Instant): (d: Date)
    ensures IsValidDate(d)
  {
    CivilFromDays(LocalDay(t))
  }

  /** Whole Tokyo wall-clock minutes since 1970-01-01 00:00 local. */
  function LocalMinutes(t: Instant): (m: int) {
    (t + TokyoOffset) / NanosPerMinute
  }

  function LocalHour(t: Instant): (h: int)
    ensures 0 <= h < 24
  {
    (LocalMinutes(t) % MinutesPerDay) / 60
  }

  function LocalMinute(t: Instant): (m: int)
    ensures 0 <= m < 60
  {
    LocalMinutes(t) % 60
  }

  /** `time.Date(y, m, d, 0, 0, 0, 0, Asia/Tokyo)`. */
  function LocalMidnight(d: Date): (t: Instant)
    requires 1 <= d.month <= 12
  {
    DaysFromCivil(d) * NanosPerDay - TokyoOffset
  }

  /** `time.Date(y, m, d, 0, 0, 0, 0, UTC)`. */
  function UtcMidnight(d: Date): (t: Instant)
    requires 1 <= d.month <= 12
  {
    DaysFromCivil(d) * NanosPerDay
  }

  /** The local minute count and the local day count agree on the day. */
  lemma LocalMinutesOfDay(t: Instant)
    ensures LocalMinutes(t) / MinutesPerDay == LocalDay(t)
  {
    var x := t + TokyoOffset;
    var q, r := x / NanosPerDay, x % NanosPerDay;
    assert x == q * NanosPerDay + r && 0 <= r < NanosPerDay;
    assert x == (q * MinutesPerDay) * NanosPerMinute + r;
    assert LocalMinutes(t) == q * MinutesPerDay + r / NanosPerMinute;
  }

  /** The "2006" layout element: at least four digits, with a sign when negative. */
  function FormatYear(y: int): (s: string) {
    if y < 0 then "-" + Padded(-y, 4) else Padded(y, 4)
  }

  /** The layout "2006-01-02". */
  function FormatDate(d: Date): (s: string)
    requires IsValidDate(d)
  {
    FormatYear(d.year) + "-" + Padded(d.month, 2) + "-" + Padded(d.day, 2)
  }

  /** The " 15:04" tail of the layout "2006-01-02 15:04". */
  function ClockText(hh: nat, mm: nat): (s: string) {
    " " + Padded(hh, 2) + ":" + Padded(mm, 2)
  }

  /** The layout "2006-01-02 15:04", applied after conversion to Tokyo time. */
  function FormatMinute(t: Instant): (s: string) {
    var mins := LocalMinutes(t);
    FormatDate(CivilFromDays(mins / MinutesPerDay)) + ClockText((mins % MinutesPerDay) / 60, mins % 60)
  }

  /** The shape of the layout "2006-01-02": four digits, '-', two digits, '-', two digits, nothing after. */
  predicate DateShape(s: string) {
    |s| == 10 && AllDigits(s[0..4]) && s[4] == '-' && AllDigits(s[5..7])
    && s[7] == '-' && AllDigits(s[8..10])
  }

  /**
   * `time.Parse("2006-01-02", s)` on the calendar side: the text has the
   * layout's shape, the month is in 1..12 and the day is within that month.
   * What it accepts is exactly the formatted text of the date it returns.
   */
  function ParseDateText(s: string): (r: Option<Date>)
    ensures r.Some? ==> IsValidDate(r.value) && 0 <= r.value.year <= 9999 && FormatDate(r.value) == s
  {
    if DateShape(s) then
      var d := Date(Value(s[0..4]), Value(s[5..7]), Value(s[8..10]));
      if IsValidDate(d) then
        CanonicalDateText(s);
        Some(d)
      else None
    else None
  }

  /**
   * `time.Parse("2006-01-02", s)`: a layout without a zone yields UTC
   * midnight of the date, which in Tokyo is 09:00 on that same date.
   */
  function ParseDate(s: string): (r: Option<Instant>)
    ensures r.Some? <==> ParseDateText(s).Some?
    ensures r.Some? ==> r.value % NanosPerDay == 0
    ensures r.Some? ==> LocalDate(r.value) == ParseDateText(s).value
    ensures r.Some? ==> LocalHour(r.value) == 9 && LocalMinute(r.value) == 0
  {
    match ParseDateText(s)
    case Some(d) =>
      UtcMidnightIsNineLocal(d);
      Some(UtcMidnight(d))
    case None => None
  }

  /** Digits of the date shape are the canonical text of the date they denote. */
  lemma CanonicalDateText(s: string)
    requires DateShape(s)
    requires IsValidDate(Date(Value(s[0..4]), Value(s[5..7]), Value(s[8..10])))
    ensures var d := Date(Value(s[0..4]), Value(s[5..7]), Value(s[8..10]));
      0 <= d.year <= 9999 && FormatDate(d) == s
  {
    var d := Date(Value(s[0..4]), Value(s[5..7]), Value(s[8..10]));
    ValueBound(s[0..4]);
    FormatDatePieces(d);
    PaddedOfValue(s[0..4]);
    PaddedOfValue(s[5..7]);
    PaddedOfValue(s[8..10]);
    SameDateShape(FormatDate(d), s);
  }

  lemma FormatDatePieces(d: Date)
    requires IsValidDate(d) && 0 <= d.year <= 9999
    ensures var s := FormatDate(d);
      && |s| == 10 && s[0..4] == Padded(d.year, 4) && s[4] == '-'
      && s[5..7] == Padded(d.month, 2) && s[7] == '-' && s[8..10] == Padded(d.day, 2)
  {
    PaddedLength(d.year, 4);
    PaddedLength(d.month, 2);
    PaddedLength(d.day, 2);
    DateTextPieces(Padded(d.year, 4), Padded(d.month, 2), Padded(d.day, 2));
  }

  lemma DateTextPieces(y: string, m: string, d: string)
    requires |y| == 4 && |m| == 2 && |d| == 2
    ensures var s := y + "-" + m + "-" + d;
      && |s| == 10 && s[0..4] == y && s[4] == '-' && s[5..7] == m && s[7] == '-' && s[8..10] == d
  {
  }

  /** Formatting a date and parsing it back with the same layout gives the date. */
  lemma ParseFormatDate(d: Date)
    requires IsValidDate(d) && 0 <= d.year <= 9999
    ensures ParseDateText(FormatDate(d)) == Some(d)
  {
    FormatDatePieces(d);
    ValueOfPadded(d.year, 4);
    ValueOfPadded(d.month, 2);
    ValueOfPadded(d.day, 2);
  }

  /** The parser accepts exactly the texts that format some date of year 0..9999. */
  lemma DateTextAccepted(s: string)
    ensures ParseDateText(s).Some?
      <==> exists d :: IsValidDate(d) && 0 <= d.year <= 9999 && FormatDate(d) == s
  {
    if ParseDateText(s).Some? {
      var d := ParseDateText(s).value;
      assert IsValidDate(d) && 0 <= d.year <= 9999 && FormatDate(d) == s;
    }
    if exists d :: IsValidDate(d) && 0 <= d.year <= 9999 && FormatDate(d) == s {
      var d :| IsValidDate(d) && 0 <= d.year <= 9999 && FormatDate(d) == s;
      ParseFormatDate(d);
    }
  }

  lemma SameDateShape(a: string, b: string)
    requires |a| == 10 && |b| == 10
    requires a[0..4] == b[0..4] && a[4] == b[4] && a[5..7] == b[5..7] && a[7] == b[7]
    requires a[8..10] == b[8..10]
    ensures a == b
  {
    assert a == a[0..4] + [a[4]] + a[5..7] + [a[7]] + a[8..10];
    assert b == b[0..4] + [b[4]] + b[5..7] + [b[7]] + b[8..10];
  }

  /** UTC midnight of a date is 09:00 in Tokyo on that same date. */
  lemma UtcMidnightIsNineLocal(d: Date)
    requires IsValidDate(d)
    ensures UtcMidnight(d) % NanosPerDay == 0
    ensures LocalDate(UtcMidnight(d)) == d
    ensures LocalHour(UtcMidnight(d)) == 9 && LocalMinute(UtcMidnight(d)) == 0
  {
    WallClock(UtcMidnight(d), DaysFromCivil(d), 9, 0);
    CivilFromDaysOfDate(d);
  }

  /** The local day, hour and minute of an instant given as a Tokyo wall-clock time. */
  lemma WallClock(t: Instant, n: int, hh: nat, mm: nat)
    requires hh < 24 && mm < 60
    requires t + TokyoOffset == n * NanosPerDay + hh * NanosPerHour + mm * NanosPerMinute
    ensures LocalMinutes(t) == n * MinutesPerDay + hh * 60 + mm
    ensures LocalDay(t) == n && LocalHour(t) == hh && LocalMinute(t) == mm
  {
    var k := n * MinutesPerDay + hh * 60 + mm;
    assert t + TokyoOffset == k * NanosPerMinute;
    LocalMinutesOfDay(t);
    MinuteFields(k, n, hh, mm);
  }

  lemma FormatMinutePieces(t: Instant)
    requires 0 <= LocalDate(t).year <= 9999
    ensures var s := FormatMinute(t);
      && |s| == 16 && s[..10] == FormatDate(LocalDate(t)) && s[10] == ' '
      && s[11..13] == Padded(LocalHour(t), 2) && s[13] == ':'
      && s[14..16] == Padded(LocalMinute(t), 2)
  {
    LocalMinutesOfDay(t);
    FormatDatePieces(LocalDate(t));
    PaddedLength(LocalHour(t), 2);
    PaddedLength(LocalMinute(t), 2);
    MinuteTextPieces(FormatDate(LocalDate(t)), Padded(LocalHour(t), 2), Padded(LocalMinute(t), 2));
  }

  lemma MinuteTextPieces(date: string, hh: string, mm: string)
    requires |date| == 10 && |hh| == 2 && |mm| == 2
    ensures var s := date + (" " + hh + ":" + mm);
      && |s| == 16 && s[..10] == date && s[10] == ' ' && s[11..13] == hh && s[13] == ':' && s[14..16] == mm
  {
  }

  /**
   * The formatted text keeps exactly the Tokyo minute: two instants print
   * the same iff they fall in the same local minute (seconds and finer are
   * dropped, nothing else is).
   */
  lemma FormatMinuteSameIff(t: Instant, t': Instant)
    requires 0 <= LocalDate(t).year <= 9999 && 0 <= LocalDate(t').year <= 9999
    ensures FormatMinute(t) == FormatMinute(t') <==> LocalMinutes(t) == LocalMinutes(t')
  {
    if FormatMinute(t) == FormatMinute(t') {
      var s, s' := FormatMinute(t), FormatMinute(t');
      FormatMinutePieces(t);
      FormatMinutePieces(t');
      assert s[..10] == s'[..10] && s[11..13] == s'[11..13] && s[14..16] == s'[14..16];
      SameDateFromText(LocalDate(t), LocalDate(t'));
      ValueOfPadded(LocalHour(t), 2);
      ValueOfPadded(LocalHour(t'), 2);
      ValueOfPadded(LocalMinute(t), 2);
      ValueOfPadded(LocalMinute(t'), 2);
      MinutesDecompose(t);
      MinutesDecompose(t');
    }
  }

  lemma SameDateFromText(d: Date, d': Date)
    requires IsValidDate(d) && 0 <= d.year <= 9999
    requires IsValidDate(d') && 0 <= d'.year <= 9999
    requires FormatDate(d) == FormatDate(d')
    ensures d == d'
  {
    ParseFormatDate(d);
    ParseFormatDate(d');
  }

  lemma MinutesDecompose(t: Instant)
    ensures LocalMinutes(t) == DaysFromCivil(LocalDate(t)) * MinutesPerDay + LocalHour(t) * 60 + LocalMinute(t)
  {
    LocalMinutesOfDay(t);
    var m := LocalMinutes(t);
    assert m == (m / MinutesPerDay) * MinutesPerDay + m % MinutesPerDay;
    assert m % MinutesPerDay == ((m % MinutesPerDay) / 60) * 60 + m % 60;
  }

  /** How an instant prints, given its local day, hour and minute. */
  lemma FormatMinuteOf(t: Instant, n: int, hh: nat, mm: nat)
    requires hh < 24 && mm < 60
    requires LocalMinutes(t) == n * MinutesPerDay + hh * 60 + mm
    ensures FormatMinute(t) == FormatDate(CivilFromDays(n)) + ClockText(hh, mm)
  {
    MinuteFields(LocalMinutes(t), n, hh, mm);
  }

  lemma MinuteFields(mins: int, n: int, hh: nat, mm: nat)
    requires hh < 24 && mm < 60
    requires mins == n * MinutesPerDay + hh * 60 + mm
    ensures mins / MinutesPerDay == n && (mins % MinutesPerDay) / 60 == hh && mins % 60 == mm
  {
    DayFields(mins, n, hh * 60 + mm);
    HourFields(mins % MinutesPerDay, hh, mm);
  }

  lemma DayFields(mins: int, n: int, m: nat)
    requires m < MinutesPerDay && mins == n * MinutesPerDay + m
    ensures mins / MinutesPerDay == n && mins % MinutesPerDay == m && mins % 60 == m % 60
  {
  }

  lemma HourFields(m: int, hh: nat, mm: nat)
    requires mm < 60 && m == hh * 60 + mm
    ensures m / 60 == hh && m % 60 == mm
  {
  }

  /** An instant `h` whole hours after local midnight of `d` prints as `d` at `h`:00. */
  lemma FormatOnTheHour(d: Date, h: nat)
    requires IsValidDate(d) && h < 24
    ensures FormatMinute(LocalMidnight(d) + h * NanosPerHour) == FormatDate(d) + ClockText(h, 0)
  {
    var n := DaysFromCivil(d);
    MinutesOnTheHour(d, h);
    FormatMinuteOf(LocalMidnight(d) + h * NanosPerHour, n, h, 0);
    CivilFromDaysOfDate(d);
  }

  lemma MinutesOnTheHour(d: Date, h: nat)
    requires IsValidDate(d) && h < 24
    ensures LocalMinutes(LocalMidnight(d) + h * NanosPerHour) == DaysFromCivil(d) * MinutesPerDay + h * 60
  {
    WallClock(LocalMidnight(d) + h * NanosPerHour, DaysFromCivil(d), h, 0);
  }

  lemma DigitsHaveNoNewline(s: string)
    requires AllDigits(s)
    ensures '\n' !in s
  {
  }

  lemma PaddedSingleLine(n: nat, width: nat)
    ensures '\n' !in Padded(n, width)
  {
    PaddedAreDigits(n, width);
    DigitsHaveNoNewline(Padded(n, width));
  }

  lemma FormatDateSingleLine(d: Date)
    requires IsValidDate(d)
    ensures '\n' !in FormatDate(d)
  {
    PaddedSingleLine(if d.year < 0 then -d.year else d.year, 4);
    PaddedSingleLine(d.month, 2);
    PaddedSingleLine(d.day, 2);
  }

  /** A formatted instant never breaks a line. */
  lemma FormatMinuteSingleLine(t: Instant)
    ensures '\n' !in FormatMinute(t)
  {
    var mins := LocalMinutes(t);
    FormatDateSingleLine(CivilFromDays(mins / MinutesPerDay));
    ClockTextSingleLine((mins % MinutesPerDay) / 60, mins % 60);
  }

  lemma ClockTextSingleLine(hh: nat, mm: nat)
    ensures '\n' !in ClockText(hh, mm)
  {
    PaddedSingleLine(hh, 2);
    PaddedSingleLine(mm, 2);
  }
}
