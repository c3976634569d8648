/** The updater's timestamps (the format of section 5.6 of RFC 3339) and what can be read back from them. */
module Timestamps {
  import opened Wrappers
  import opened Bytes
  import opened Numerals
  import opened Calendar

  const DASH: byte := 0x2D
  const COLON: byte := 0x3A
  const PERIOD: byte := 0x2E
  const TIME_MARK: byte := 0x54
  const OFFSET: bytes := Text("+00:00")

  const SECONDS_PER_DAY := 86_400
  const NANOS_PER_SECOND := 1_000_000_000

  /** The time since the epoch, which is zero for any earlier time. */
  datatype Elapsed = Elapsed(seconds: nat, nanos: nat)

  predicate ValidElapsed(t: Elapsed) {
    t.seconds < U64_LIMIT && t.nanos < NANOS_PER_SECOND
  }

  /** `{n:0width}`. */
  function Padded(n: nat, width: nat): bytes {
    var digits := Digits(n, 10);
    if |digits| >= width then digits else Repeat(ZERO, width - |digits|) + digits
  }

  function DateText(date: Date): bytes
    requires ValidDate(date) && date.year >= 0
  {
    Padded(date.year, 4) + MonthDay(date)
  }

  lemma CivilDateNatural(days: nat)
    ensures ValidDate(CivilDate(days)) && CivilDate(days).year >= 1970
  {
    CivilDateIsCalendar(days);
    if days > 0 {
      DatesIncrease(0, days);
    }
  }

  /** `utc_date`, with its conversion and its checked addition. */
  function UtcDate(epoch: nat): Option<bytes> {
    var days := epoch / SECONDS_PER_DAY;
    if days >= I64_LIMIT || days + 719_468 >= I64_LIMIT then None
    else CivilDateNatural(days); Some(DateText(CivilDate(days)))
  }

  /** Hours, minutes, seconds and nanoseconds. */
  datatype Clock = Clock(hour: nat, minute: nat, second: nat, nanos: nat)

  predicate ValidClock(c: Clock) {
    c.hour < 24 && c.minute < 60 && c.second < 60 && c.nanos < NANOS_PER_SECOND
  }

  function HourMinute(c: Clock): bytes {
    [TIME_MARK] + Padded(c.hour, 2) + [COLON] + Padded(c.minute, 2) + [COLON] + Padded(c.second, 2)
  }

  function Fraction(nanos: nat): bytes {
    if nanos == 0 then OFFSET else [PERIOD] + Padded(nanos, 9) + OFFSET
  }

  function ClockOf(t: Elapsed): Clock {
    var inDay := t.seconds % SECONDS_PER_DAY;
    Clock(inDay / 3_600, inDay % 3_600 / 60, inDay % 60, t.nanos)
  }

  function ClockText(t: Elapsed): bytes {
    HourMinute(ClockOf(t)) + Fraction(t.nanos)
  }

  /** `timestamp`. */
  function Timestamp(t: Elapsed): bytes {
    var date := if UtcDate(t.seconds).Some? then UtcDate(t.seconds).value else Text("1970-01-01");
    date + ClockText(t)
  }

  /**
   On a `u64` the conversion and the addition never fail, so the fallback is never written, and the date is the
   calendar's.
   */
  lemma UtcDateIsCalendar(epoch: nat)
    requires epoch < U64_LIMIT
    ensures var date := DateAfter(epoch / SECONDS_PER_DAY);
            ValidDate(date) && date.year >= 1970 && UtcDate(epoch) == Some(DateText(date))
  {
    CivilDateNatural(epoch / SECONDS_PER_DAY);
    CivilDateIsCalendar(epoch / SECONDS_PER_DAY);
  }

  // ---------------------------------------------------------------------------------------------
  // Reading back
  // ---------------------------------------------------------------------------------------------

  lemma PaddedFacts(n: nat, width: nat)
    requires width >= 1
    ensures AllDigits(Padded(n, width), 10) && Value(Padded(n, width), 10) == n
    ensures n < Power(10, width) ==> |Padded(n, width)| == width
  {
    DigitsLength(n, 10, width);
    ValueOfDigits(n, 10);
    if |Digits(n, 10)| < width {
      ValuePadded(width - |Digits(n, 10)|, Digits(n, 10), 10);
    }
  }

  lemma PaddedInjective(m: nat, n: nat, width: nat)
    requires width >= 1 && Padded(m, width) == Padded(n, width)
    ensures m == n
  {
    PaddedFacts(m, width);
    PaddedFacts(n, width);
  }

  lemma PowersOfTen()
    ensures Power(10, 2) == 100 && Power(10, 9) == 1_000_000_000
  {
  }

  lemma SplitEqual(a: bytes, b: bytes, c: bytes, d: bytes)
    requires a + b == c + d && |a| == |c|
    ensures a == c && b == d
  {
    assert a == (a + b)[..|a|] && b == (a + b)[|a|..];
    assert c == (c + d)[..|c|] && d == (c + d)[|c|..];
  }

  /** A number of any width is read back up to the first dash. */
  lemma UpToDash(m: nat, n: nat, x: bytes, y: bytes)
    requires x != [] && y != [] && x[0] == y[0] == DASH
    requires Padded(m, 4) + x == Padded(n, 4) + y
    ensures m == n && x == y
  {
    PaddedFacts(m, 4);
    PaddedFacts(n, 4);
    hide Padded;
    var a, b := Padded(m, 4), Padded(n, 4);
    IndexOfIs(a + x, DASH, |a|);
    IndexOfIs(b + y, DASH, |b|);
    SplitEqual(a, x, b, y);
  }

  function MonthDay(date: Date): bytes
    requires ValidDate(date)
  {
    [DASH] + Padded(date.month, 2) + [DASH] + Padded(date.day, 2)
  }

  /** A date and what follows it are read back from the text: the year ends at the first dash. */
  lemma DateTextInjective(a: Date, b: Date, x: bytes, y: bytes)
    requires ValidDate(a) && ValidDate(b) && a.year >= 0 && b.year >= 0
    requires DateText(a) + x == DateText(b) + y
    ensures a == b && x == y
  {
    hide Padded, ValidDate;
    DateTextParts(a, x);
    DateTextParts(b, y);
    hide DateText;
    UpToDash(a.year, b.year, MonthDay(a) + x, MonthDay(b) + y);
    MonthDayInjective(a, b, x, y);
  }

  lemma DateTextParts(a: Date, x: bytes)
    requires ValidDate(a) && a.year >= 0
    ensures DateText(a) + x == Padded(a.year, 4) + (MonthDay(a) + x)
    ensures MonthDay(a) + x != [] && (MonthDay(a) + x)[0] == DASH
  {
    hide Padded;
    assert MonthDay(a) + x == [DASH] + (Padded(a.month, 2) + [DASH] + Padded(a.day, 2) + x);
  }

  lemma MonthDayInjective(a: Date, b: Date, x: bytes, y: bytes)
    requires ValidDate(a) && ValidDate(b)
    requires MonthDay(a) + x == MonthDay(b) + y
    ensures a.month == b.month && a.day == b.day && x == y
  {
    PowersOfTen();
    PaddedFacts(a.month, 2);
    PaddedFacts(b.month, 2);
    PaddedFacts(a.day, 2);
    PaddedFacts(b.day, 2);
    hide Padded;
    var am, bm, ad, bd := Padded(a.month, 2), Padded(b.month, 2), Padded(a.day, 2), Padded(b.day, 2);
    SplitEqual([DASH] + am + [DASH] + ad, x, [DASH] + bm + [DASH] + bd, y);
    SplitEqual([DASH] + am + [DASH], ad, [DASH] + bm + [DASH], bd);
    SplitEqual([DASH] + am, [DASH], [DASH] + bm, [DASH]);
    SplitEqual([DASH], am, [DASH], bm);
    PaddedInjective(a.month, b.month, 2);
    PaddedInjective(a.day, b.day, 2);
  }

  lemma HourMinuteInjective(a: Clock, b: Clock, x: bytes, y: bytes)
    requires ValidClock(a) && ValidClock(b) && HourMinute(a) + x == HourMinute(b) + y
    ensures a.hour == b.hour && a.minute == b.minute && a.second == b.second && x == y
  {
    PowersOfTen();
    PaddedFacts(a.hour, 2);
    PaddedFacts(b.hour, 2);
    PaddedFacts(a.minute, 2);
    PaddedFacts(b.minute, 2);
    PaddedFacts(a.second, 2);
    PaddedFacts(b.second, 2);
    hide Padded;
    var ah, bh, am, bm, sa, sb := Padded(a.hour, 2), Padded(b.hour, 2), Padded(a.minute, 2), Padded(b.minute, 2),
      Padded(a.second, 2), Padded(b.second, 2);
    SplitEqual([TIME_MARK] + ah + [COLON] + am + [COLON] + sa, x, [TIME_MARK] + bh + [COLON] + bm + [COLON] + sb, y);
    SplitEqual([TIME_MARK] + ah + [COLON] + am + [COLON], sa, [TIME_MARK] + bh + [COLON] + bm + [COLON], sb);
    SplitEqual([TIME_MARK] + ah + [COLON] + am, [COLON], [TIME_MARK] + bh + [COLON] + bm, [COLON]);
    SplitEqual([TIME_MARK] + ah + [COLON], am, [TIME_MARK] + bh + [COLON], bm);
    SplitEqual([TIME_MARK] + ah, [COLON], [TIME_MARK] + bh, [COLON]);
    SplitEqual([TIME_MARK], ah, [TIME_MARK], bh);
    PaddedInjective(a.hour, b.hour, 2);
    PaddedInjective(a.minute, b.minute, 2);
    PaddedInjective(a.second, b.second, 2);
  }

  lemma FractionInjective(m: nat, n: nat)
    requires m < NANOS_PER_SECOND && n < NANOS_PER_SECOND && Fraction(m) == Fraction(n)
    ensures m == n
  {
    assert OFFSET[0] != PERIOD;
    if m != 0 && n != 0 {
      PowersOfTen();
      PaddedFacts(m, 9);
      PaddedFacts(n, 9);
      hide Padded;
      SplitEqual([PERIOD] + Padded(m, 9), OFFSET, [PERIOD] + Padded(n, 9), OFFSET);
      SplitEqual([PERIOD], Padded(m, 9), [PERIOD], Padded(n, 9));
      PaddedInjective(m, n, 9);
    }
  }

  /** The timestamp determines the instant, to the nanosecond, on every time the clock can show. */
  lemma TimestampInjective(s: Elapsed, t: Elapsed)
    requires ValidElapsed(s) && ValidElapsed(t) && Timestamp(s) == Timestamp(t)
    ensures s == t
  {
    hide Padded, HourMinute, Fraction, ValidDate, CivilDate, DateText;
    var sd, td := s.seconds / SECONDS_PER_DAY, t.seconds / SECONDS_PER_DAY;
    UtcDateIsCalendar(s.seconds);
    UtcDateIsCalendar(t.seconds);
    CivilDateNatural(sd);
    CivilDateNatural(td);
    DateTextInjective(CivilDate(sd), CivilDate(td), ClockText(s), ClockText(t));
    HourMinuteInjective(ClockOf(s), ClockOf(t), Fraction(s.nanos), Fraction(t.nanos));
    FractionInjective(s.nanos, t.nanos);
    DaysEqual(sd, td);
    SameClock(s.seconds, t.seconds);
  }

  lemma DaysEqual(i: nat, j: nat)
    requires CivilDate(i) == CivilDate(j)
    ensures i == j
  {
    hide CivilDate;
    CivilDateIsCalendar(i);
    CivilDateIsCalendar(j);
    if i < j {
      DatesIncrease(i, j);
    } else if j < i {
      DatesIncrease(j, i);
    }
  }

  lemma SameClock(m: nat, n: nat)
    requires m / SECONDS_PER_DAY == n / SECONDS_PER_DAY
    requires var a, b := m % SECONDS_PER_DAY, n % SECONDS_PER_DAY;
             a / 3_600 == b / 3_600 && a % 3_600 / 60 == b % 3_600 / 60 && a % 60 == b % 60
    ensures m == n
  {
    DayParts(m % SECONDS_PER_DAY);
    DayParts(n % SECONDS_PER_DAY);
    assert m == SECONDS_PER_DAY * (m / SECONDS_PER_DAY) + m % SECONDS_PER_DAY;
    assert n == SECONDS_PER_DAY * (n / SECONDS_PER_DAY) + n % SECONDS_PER_DAY;
  }

  // ---------------------------------------------------------------------------------------------
  // The layout
  // ---------------------------------------------------------------------------------------------

  /** Digits between two positions of a text, and the number they stand for. */
  predicate Reads(text: bytes, from: nat, to: nat, n: int) {
    from < to <= |text| && AllDigits(text[from..to], 10) && Value(text[from..to], 10) == n
  }

  lemma ReadsPadded(before: bytes, n: nat, width: nat, after: bytes)
    requires width >= 1 && n < Power(10, width)
    ensures Reads(before + Padded(n, width) + after, |before|, |before| + width, n)
  {
    PaddedFacts(n, width);
    hide Padded;
    assert (before + Padded(n, width) + after)[|before|..|before| + width] == Padded(n, width);
  }

  lemma ReadsWithin(before: bytes, text: bytes, after: bytes, from: nat, to: nat, n: int)
    requires Reads(text, from, to, n)
    ensures Reads(before + text + after, |before| + from, |before| + to, n)
  {
    assert (before + text + after)[|before| + from..|before| + to] == text[from..to];
  }

  /** A date at the front of a text: four, two and two digits between dashes. */
  predicate ShowsDate(text: bytes, date: Date) {
    && |text| >= 10 && text[4] == DASH && text[7] == DASH
    && Reads(text, 0, 4, date.year) && Reads(text, 5, 7, date.month) && Reads(text, 8, 10, date.day)
  }

  /** A time of day after it: a mark, and two digits each between colons. */
  predicate ShowsClock(text: bytes, c: Clock) {
    && |text| >= 19 && text[10] == TIME_MARK && text[13] == COLON && text[16] == COLON
    && Reads(text, 11, 13, c.hour) && Reads(text, 14, 16, c.minute) && Reads(text, 17, 19, c.second)
  }

  lemma PowerOfFour()
    ensures Power(10, 4) == 10_000
  {
  }

  lemma DateLayout(date: Date)
    requires ValidDate(date) && 0 <= date.year <= 9999
    ensures |DateText(date)| == 10 && ShowsDate(DateText(date), date)
  {
    PowersOfTen();
    PowerOfFour();
    PaddedFacts(date.year, 4);
    PaddedFacts(date.month, 2);
    PaddedFacts(date.day, 2);
    hide Padded, Power;
    var year, month, day := Padded(date.year, 4), Padded(date.month, 2), Padded(date.day, 2);
    FieldsApart(year, month, day);
    assert DateText(date) == year + ([DASH] + month + [DASH] + day);
  }

  /** Where three fields between dashes stand. */
  lemma FieldsApart(year: bytes, month: bytes, day: bytes)
    requires |year| == 4 && |month| == 2 && |day| == 2
    ensures var text := year + ([DASH] + month + [DASH] + day);
            && |text| == 10 && text[4] == DASH && text[7] == DASH
            && text[0..4] == year && text[5..7] == month && text[8..10] == day
  {
  }

  lemma ClockFields(c: Clock)
    requires ValidClock(c)
    ensures var text := HourMinute(c);
            && |text| == 9 && text[0] == TIME_MARK && text[3] == COLON && text[6] == COLON
            && Reads(text, 1, 3, c.hour) && Reads(text, 4, 6, c.minute) && Reads(text, 7, 9, c.second)
  {
    PowersOfTen();
    PaddedFacts(c.hour, 2);
    PaddedFacts(c.minute, 2);
    PaddedFacts(c.second, 2);
    var hour, minute, second := Padded(c.hour, 2), Padded(c.minute, 2), Padded(c.second, 2);
    ReadsPadded([TIME_MARK], c.hour, 2, [COLON] + minute + [COLON] + second);
    ReadsPadded([TIME_MARK] + hour + [COLON], c.minute, 2, [COLON] + second);
    ReadsPadded([TIME_MARK] + hour + [COLON] + minute + [COLON], c.second, 2, []);
    hide Padded, Reads;
    assert HourMinute(c) == [TIME_MARK] + hour + ([COLON] + minute + [COLON] + second);
    assert HourMinute(c) == ([TIME_MARK] + hour + [COLON]) + minute + ([COLON] + second);
    assert HourMinute(c) == ([TIME_MARK] + hour + [COLON] + minute + [COLON]) + second + [];
  }

  lemma DateInFront(front: bytes, date: Date, rest: bytes)
    requires |front| == 10 && ShowsDate(front, date)
    ensures ShowsDate(front + rest, date)
  {
    ReadsWithin([], front, rest, 0, 4, date.year);
    ReadsWithin([], front, rest, 5, 7, date.month);
    ReadsWithin([], front, rest, 8, 10, date.day);
    hide Reads;
    assert [] + front + rest == front + rest;
  }

  lemma ClockInside(front: bytes, c: Clock, after: bytes)
    requires |front| == 10 && ValidClock(c)
    ensures var text := front + HourMinute(c) + after;
            |text| == 19 + |after| && ShowsClock(text, c) && text[19..] == after
  {
    ClockFields(c);
    hide HourMinute, Reads;
    var back := HourMinute(c);
    ReadsWithin(front, back, after, 1, 3, c.hour);
    ReadsWithin(front, back, after, 4, 6, c.minute);
    ReadsWithin(front, back, after, 7, 9, c.second);
    var text := front + back + after;
    assert text[10] == back[0] && text[13] == back[3] && text[16] == back[6];
  }

  lemma Layout(date: Date, c: Clock, after: bytes)
    requires ValidDate(date) && 0 <= date.year <= 9999 && ValidClock(c)
    ensures var text := DateText(date) + (HourMinute(c) + after);
            |text| == 19 + |after| && ShowsDate(text, date) && ShowsClock(text, c) && text[19..] == after
  {
    hide DateText, HourMinute, ShowsDate, ShowsClock, ValidClock;
    DateLayout(date);
    DateInFront(DateText(date), date, HourMinute(c) + after);
    ClockInside(DateText(date), c, after);
    assert DateText(date) + HourMinute(c) + after == DateText(date) + (HourMinute(c) + after);
  }

  lemma FractionLayout(nanos: nat)
    requires nanos < NANOS_PER_SECOND
    ensures var text := Fraction(nanos);
            if nanos == 0 then text == OFFSET
            else |text| == 16 && text[0] == PERIOD && Reads(text, 1, 10, nanos) && text[10..] == OFFSET
  {
    if nanos != 0 {
      PowersOfTen();
      PaddedFacts(nanos, 9);
      ReadsPadded([PERIOD], nanos, 9, OFFSET);
    }
  }

  /**
    Up to the year 9999 the text has the layout of section 5.6 of RFC 3339: the calendar's date, the time of day
    whose parts make up the seconds of the day, an optional fraction of nine digits, and a zero offset.
    */
  lemma TimestampLayout(t: Elapsed)
    requires ValidElapsed(t) && DateAfter(t.seconds / SECONDS_PER_DAY).year <= 9999
    ensures var text, fraction, c := Timestamp(t), Fraction(t.nanos), ClockOf(t);
            && |text| == 19 + |fraction| && text[19..] == fraction
            && ShowsDate(text, DateAfter(t.seconds / SECONDS_PER_DAY)) && ShowsClock(text, c)
            && c.hour * 3_600 + c.minute * 60 + c.second == t.seconds % SECONDS_PER_DAY
            && (if t.nanos == 0 then fraction == OFFSET
                else
                  && |fraction| == 16 && fraction[0] == PERIOD && Reads(fraction, 1, 10, t.nanos)
                  && fraction[10..] == OFFSET)
  {
    hide Padded, Reads, HourMinute, Fraction, DateText, ValidDate, CivilDate, ShowsDate, ShowsClock;
    UtcDateIsCalendar(t.seconds);
    DayParts(t.seconds % SECONDS_PER_DAY);
    Layout(DateAfter(t.seconds / SECONDS_PER_DAY), ClockOf(t), Fraction(t.nanos));
    FractionLayout(t.nanos);
  }

  lemma DayParts(inDay: nat)
    requires inDay < SECONDS_PER_DAY
    ensures inDay / 3_600 * 3_600 + inDay % 3_600 / 60 * 60 + inDay % 60 == inDay
    ensures inDay / 3_600 < 24 && inDay % 3_600 / 60 < 60
  {
  }
}
