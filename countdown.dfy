/**
  The client's countdown to an event, `getTimeUntilEvent`, and the date it
  sorts events by, `parseEventDate`.

  Both match the stored date text against the same pattern, take the month,
  day, hour, minute and AM/PM captures, build the instant in the current
  year and move it to the next year when it already lies in the past. The
  pattern match and `new Date(text)` are parameters: the matcher maps the
  date text to its captures (or `None` when the pattern does not match),
  and `dateAt` maps captures and a year to an instant in milliseconds (or
  `None` for an Invalid Date). The clock is one instant `now` and the year
  `currentYear` it falls in.
 */
module Countdown {
  import opened Wrappers

  /** The month, day, hour, minute and AM/PM captures of the date pattern. */
  datatype DateParts = DateParts(month: string, day: string, hour: string, minute: string, ampm: string)

  /** The date pattern applied to the trimmed date text. */
  type Matcher = string -> Option<DateParts>

  /** `new Date("<month> <day>, <year> <hour>:<minute> <ampm>")`, `None` when invalid. */
  type DateBuilder = (DateParts, int) -> Option<int>

  const MsPerMinute: int := 1000 * 60
  const MsPerHour: int := 1000 * 60 * 60
  const MsPerDay: int := 1000 * 60 * 60 * 24

  // ---------------------------------------------------------------------
  // Number formatting
  // ---------------------------------------------------------------------

  predicate IsDigit(c: char) { '0' <= c <= '9' }

  function DigitChar(d: nat): (c: char)
    requires d < 10
    ensures IsDigit(c)
  {
    (48 + d) as char
  }

  /**
    A non-negative integer in a template literal: its decimal digits, most
    significant first, with no leading zero.
   */
  function Decimal(n: nat): (s: string)
    ensures |s| > 0 && forall i :: 0 <= i < |s| ==> IsDigit(s[i])
    ensures |s| > 1 ==> s[0] != '0'
    decreases n
  {
    if n < 10 then [DigitChar(n)] else Decimal(n / 10) + [DigitChar(n % 10)]
  }

  /** The number a string of decimal digits denotes. */
  function DecimalValue(s: string): nat
    requires forall i :: 0 <= i < |s| ==> IsDigit(s[i])
  {
    if s == [] then 0
    else
      assert IsDigit(s[|s| - 1]);
      DecimalValue(s[..|s| - 1]) * 10 + (s[|s| - 1] as int - 48)
  }

  /** Reading the digits back gives the number: formatting loses nothing. */
  lemma {:induction false} DecimalRoundTrip(n: nat)
    ensures DecimalValue(Decimal(n)) == n
    decreases n
  {
    if n >= 10 {
      DecimalRoundTrip(n / 10);
      var s := Decimal(n);
      assert s[..|s| - 1] == Decimal(n / 10);
    }
  }

  /** Different numbers are written differently. */
  lemma DecimalInjective(m: nat, n: nat)
    requires Decimal(m) == Decimal(n)
    ensures m == n
  {
    DecimalRoundTrip(m);
    DecimalRoundTrip(n);
  }

  /** `count > 1 ? 's' : ''`. */
  function Plural(count: int): string
  {
    if count > 1 then "s" else ""
  }

  // ---------------------------------------------------------------------
  // The countdown text
  // ---------------------------------------------------------------------

  /** The text shown for `diff` milliseconds between now and the event. */
  function Countdown(diff: int): string
  {
    if diff < 0 then "Event passed"
    else
      var days := diff / MsPerDay;
      var hours := (diff % MsPerDay) / MsPerHour;
      if days > 0 then
        Decimal(days) + " day" + Plural(days) + " " + Decimal(hours) + " hour" + Plural(hours)
      else if hours > 0 then
        var minutes := (diff % MsPerHour) / MsPerMinute;
        Decimal(hours) + " hour" + Plural(hours) + " " + Decimal(minutes) + " min"
      else
        var minutes := diff / MsPerMinute;
        if minutes > 0 then Decimal(minutes) + " minutes" else "Starting soon!"
  }

  /** Integer division is determined by the bracket the dividend falls in. */
  lemma DivUnique(a: int, b: int, q: int)
    requires b > 0 && q * b <= a < q * b + b
    ensures a / b == q && a % b == a - q * b
  {
    var q2, r2 := a / b, a % b;
    assert a == q2 * b + r2 && 0 <= r2 < b;
    if q2 < q {
      MulStep(q2, q, b);
    } else if q2 > q {
      MulStep(q, q2, b);
    }
  }

  lemma MulStep(x: int, y: int, b: int)
    requires x < y && b > 0
    ensures x * b + b <= y * b
  {
    var d := y - x - 1;
    assert y * b == (x + 1 + d) * b == x * b + b + d * b;
    assert d * b >= 0;
  }

  /**
    For a diff that is not negative, `days` whole days and `hours` whole
    hours (0 to 23) fit into it, and less than one more hour is left.
   */
  lemma CountdownFields(diff: int)
    requires diff >= 0
    ensures var days := diff / MsPerDay; var hours := (diff % MsPerDay) / MsPerHour;
      && days >= 0 && 0 <= hours < 24
      && days * MsPerDay + hours * MsPerHour <= diff < days * MsPerDay + (hours + 1) * MsPerHour
  {
  }

  /**
    Every countdown text other than the two fixed messages starts with a
    digit, and from one minute to go on it is never a fixed message.
   */
  lemma CountdownShape(diff: int)
    ensures var s := Countdown(diff);
      s == "Event passed" || s == "Starting soon!" || (|s| > 0 && IsDigit(s[0]))
    ensures diff >= MsPerMinute ==> |Countdown(diff)| > 0 && IsDigit(Countdown(diff)[0])
  {
    if diff >= MsPerMinute {
      var days := diff / MsPerDay;
      var hours := (diff % MsPerDay) / MsPerHour;
      if days <= 0 && hours <= 0 {
        CountdownFields(diff);
        assert diff / MsPerMinute >= 1;
      }
    }
  }

  /** The countdown reads "Event passed" exactly when the event time lies before now. */
  lemma PassedIff(diff: int)
    ensures Countdown(diff) == "Event passed" <==> diff < 0
  {
    CountdownShape(diff);
    if diff >= 0 {
      assert Countdown(diff) != "Event passed";
    }
  }

  /**
    With at least one whole day to go, the countdown shows the whole days
    and the whole hours past them, each with its `s` exactly when the count
    is above one.
   */
  lemma DaysShown(diff: int, days: int, hours: int)
    requires days >= 1 && 0 <= hours < 24
    requires days * MsPerDay + hours * MsPerHour <= diff < days * MsPerDay + (hours + 1) * MsPerHour
    ensures Countdown(diff) ==
      Decimal(days) + " day" + Plural(days) + " " + Decimal(hours) + " hour" + Plural(hours)
  {
    assert diff >= MsPerDay by {
      MulStep(0, days, MsPerDay);
    }
    DayHourSplit(diff, days, hours);
  }

  lemma DayHourSplit(diff: int, days: int, hours: int)
    requires days * MsPerDay + hours * MsPerHour <= diff < days * MsPerDay + (hours + 1) * MsPerHour
    requires 0 <= hours < 24
    ensures diff / MsPerDay == days && (diff % MsPerDay) / MsPerHour == hours
  {
    DivUnique(diff, MsPerDay, days);
    DivUnique(diff % MsPerDay, MsPerHour, hours);
  }

  /**
    Under a day but at least an hour to go, the countdown shows the whole
    hours and the whole minutes past them.
   */
  lemma HoursShown(diff: int, hours: int, minutes: int)
    requires 1 <= hours < 24 && 0 <= minutes < 60
    requires hours * MsPerHour + minutes * MsPerMinute <= diff < hours * MsPerHour + (minutes + 1) * MsPerMinute
    ensures Countdown(diff) ==
      Decimal(hours) + " hour" + Plural(hours) + " " + Decimal(minutes) + " min"
  {
    DivUnique(diff, MsPerDay, 0);
    DivUnique(diff, MsPerHour, hours);
    DivUnique(diff % MsPerHour, MsPerMinute, minutes);
  }

  /** Under an hour but at least a minute to go, the countdown shows the whole minutes. */
  lemma MinutesShown(diff: int, minutes: int)
    requires 1 <= minutes < 60
    requires minutes * MsPerMinute <= diff < (minutes + 1) * MsPerMinute
    ensures Countdown(diff) == Decimal(minutes) + " minutes"
  {
    DivUnique(diff, MsPerDay, 0);
    DivUnique(diff, MsPerHour, 0);
    DivUnique(diff, MsPerMinute, minutes);
  }

  /** The countdown reads "Starting soon!" exactly when less than a minute is left. */
  lemma StartingSoonIff(diff: int)
    ensures Countdown(diff) == "Starting soon!" <==> 0 <= diff < MsPerMinute
  {
    CountdownShape(diff);
    if 0 <= diff < MsPerMinute {
      CountdownFields(diff);
      DivUnique(diff, MsPerMinute, 0);
    }
  }

  // ---------------------------------------------------------------------
  // The event instant
  // ---------------------------------------------------------------------

  /**
    The instant both functions use: this year's, unless that one is valid
    and before now, in which case next year's. An Invalid Date this year
    compares false with anything, so it is kept.
   */
  function EventInstant(parts: DateParts, dateAt: DateBuilder, now: int, currentYear: int): (t: Option<int>)
    ensures t.Some? ==> t == dateAt(parts, currentYear) || t == dateAt(parts, currentYear + 1)
    ensures dateAt(parts, currentYear).Some? && dateAt(parts, currentYear).value < now ==>
      t == dateAt(parts, currentYear + 1)
    ensures dateAt(parts, currentYear).None? ==> t.None?
  {
    var thisYear := dateAt(parts, currentYear);
    if thisYear.Some? && thisYear.value < now then dateAt(parts, currentYear + 1) else thisYear
  }

  /**
    The rolled-over instant lies before now only when both this year's and
    next year's instants do; when next year's instant is not before now,
    the event never counts as past.
   */
  lemma RolloverSpec(parts: DateParts, dateAt: DateBuilder, now: int, currentYear: int)
    ensures var t := EventInstant(parts, dateAt, now, currentYear);
      t.Some? && t.value < now <==>
        && dateAt(parts, currentYear).Some? && dateAt(parts, currentYear).value < now
        && dateAt(parts, currentYear + 1).Some? && dateAt(parts, currentYear + 1).value < now
    ensures var t := EventInstant(parts, dateAt, now, currentYear);
      dateAt(parts, currentYear).Some? && dateAt(parts, currentYear).value >= now ==>
        t == dateAt(parts, currentYear)
  {
  }

  /** `parseEventDate`: epoch 0 when the pattern does not match, otherwise the event instant. */
  function ParseEventDate(text: string, matcher: Matcher, dateAt: DateBuilder, now: int, currentYear: int)
    : Option<int>
  {
    match matcher(text)
    case None => Some(0)
    case Some(parts) => EventInstant(parts, dateAt, now, currentYear)
  }

  /**
    `getTimeUntilEvent`: "Date format error" when the pattern does not
    match; otherwise the countdown for the event instant minus now, where
    an Invalid Date fails every comparison and ends on "Starting soon!".
   */
  function TimeUntilEvent(text: string, matcher: Matcher, dateAt: DateBuilder, now: int, currentYear: int)
    : string
  {
    match matcher(text)
    case None => "Date format error"
    case Some(parts) =>
      match EventInstant(parts, dateAt, now, currentYear)
      case None => "Starting soon!"
      case Some(t) => Countdown(t - now)
  }

  /** The countdown never writes "Date format error". */
  lemma CountdownNotFormatError(diff: int)
    ensures Countdown(diff) != "Date format error"
  {
    CountdownShape(diff);
  }

  /** "Date format error" appears exactly for text the pattern does not match. */
  lemma FormatErrorIff(text: string, matcher: Matcher, dateAt: DateBuilder, now: int, currentYear: int)
    ensures TimeUntilEvent(text, matcher, dateAt, now, currentYear) == "Date format error" <==>
      matcher(text).None?
  {
    if matcher(text).Some? {
      var t := EventInstant(matcher(text).value, dateAt, now, currentYear);
      if t.Some? {
        CountdownNotFormatError(t.value - now);
      }
    }
  }

  /**
    An event shows "Event passed" exactly when its date matches and both
    this year's and next year's instants are valid and before now.
   */
  lemma EventPassedIff(text: string, matcher: Matcher, dateAt: DateBuilder, now: int, currentYear: int)
    ensures TimeUntilEvent(text, matcher, dateAt, now, currentYear) == "Event passed" <==>
      && matcher(text).Some?
      && var parts := matcher(text).value;
      && dateAt(parts, currentYear).Some? && dateAt(parts, currentYear).value < now
      && dateAt(parts, currentYear + 1).Some? && dateAt(parts, currentYear + 1).value < now
  {
    if matcher(text).Some? {
      var parts := matcher(text).value;
      RolloverSpec(parts, dateAt, now, currentYear);
      var t := EventInstant(parts, dateAt, now, currentYear);
      if t.Some? {
        PassedIff(t.value - now);
      }
    }
  }

  /**
    For matched text the two functions agree: the countdown is the one for
    the instant `parseEventDate` returns, taken from now.
   */
  lemma ParseAndCountdownAgree(text: string, matcher: Matcher, dateAt: DateBuilder, now: int, currentYear: int)
    requires matcher(text).Some?
    ensures var t := ParseEventDate(text, matcher, dateAt, now, currentYear);
      TimeUntilEvent(text, matcher, dateAt, now, currentYear) ==
        if t.Some? then Countdown(t.value - now) else "Starting soon!"
  {
  }
}
