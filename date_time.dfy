/** System.DateTime as the journal uses it, with the two fixed text formats the
    database stores: "yyyy-MM-dd" for EntryDate and "yyyy-MM-dd HH:mm:ss" for
    CreatedAt.  The source formats with the current culture; the model fixes
    the Gregorian calendar and ':' as the time separator. */
module DateTimes {
  import opened Wrappers
  import opened Text

  /** The calendar components of a DateTime; `subsecond` counts the
      100-nanosecond ticks below one second. */
  datatype DateTimeFields = DateTimeFields(year: int, month: int, day: int,
                                           hour: int, minute: int, second: int,
                                           subsecond: int)

  predicate IsLeapYear(year: int) {
    year % 4 == 0 && (year % 100 != 0 || year % 400 == 0)
  }

  function DaysInMonth(year: int, month: int): int {
    if month == 2 then (if IsLeapYear(year) then 29 else 28)
    else if month == 4 || month == 6 || month == 9 || month == 11 then 30
    else 31
  }

  /** The range DateTime admits: years 0001 to 9999 of the Gregorian calendar. */
  predicate ValidFields(d: DateTimeFields) {
    && 1 <= d.year <= 9999
    && 1 <= d.month <= 12
    && 1 <= d.day <= DaysInMonth(d.year, d.month)
    && 0 <= d.hour < 24 && 0 <= d.minute < 60 && 0 <= d.second < 60
    && 0 <= d.subsecond < 10_000_000
  }

  type DateTime = d: DateTimeFields | ValidFields(d) witness DateTimeFields(1, 1, 1, 0, 0, 0, 0)

  /** default(DateTime), i.e. DateTime.MinValue: 0001-01-01 00:00:00. */
  const MinValue: DateTime := DateTimeFields(1, 1, 1, 0, 0, 0, 0)

  /** DateTime.Date: the same day at midnight. */
  function DateOf(d: DateTime): (r: DateTime)
    ensures r.year == d.year && r.month == d.month && r.day == d.day
    ensures r.hour == 0 && r.minute == 0 && r.second == 0 && r.subsecond == 0
  {
    d.(hour := 0, minute := 0, second := 0, subsecond := 0)
  }

  /** The instant with its fraction of a second dropped. */
  function TruncateToSeconds(d: DateTime): (r: DateTime)
    ensures r.subsecond == 0 && r == d.(subsecond := 0)
  {
    d.(subsecond := 0)
  }

  predicate IsMidnight(d: DateTime) {
    d.hour == 0 && d.minute == 0 && d.second == 0 && d.subsecond == 0
  }

  /** Chronological order (DateTime.CompareTo): the components compared from
      the year down to the ticks. */
  predicate Before(a: DateTime, b: DateTime) {
    if a.year != b.year then a.year < b.year
    else if a.month != b.month then a.month < b.month
    else if a.day != b.day then a.day < b.day
    else if a.hour != b.hour then a.hour < b.hour
    else if a.minute != b.minute then a.minute < b.minute
    else if a.second != b.second then a.second < b.second
    else a.subsecond < b.subsecond
  }

  lemma BeforeIsStrictTotalOrder(a: DateTime, b: DateTime, c: DateTime)
    ensures !Before(a, a)
    ensures Before(a, b) && Before(b, c) ==> Before(a, c)
    ensures a == b || Before(a, b) || Before(b, a)
  {
  }

  // ---------------------------------------------------------------------
  // Fixed-width decimal fields

  function Pow10(n: nat): (r: nat)
    ensures r >= 1
  {
    if n == 0 then 1 else 10 * Pow10(n - 1)
  }

  predicate IsDigit(c: char) {
    '0' <= c <= '9'
  }

  predicate AllDigits(s: string) {
    forall i :: 0 <= i < |s| ==> IsDigit(s[i])
  }

  function DigitChar(d: nat): (c: char)
    requires d < 10
    ensures IsDigit(c) && c as int - '0' as int == d
  {
    ('0' as int + d) as char
  }

  /** `n` written with exactly `width` decimal digits, zero-padded; the
      custom specifiers "yyyy", "MM", "dd", "HH", "mm" and "ss". */
  function Pad(n: nat, width: nat): (r: string)
    ensures |r| == width && AllDigits(r)
  {
    if width == 0 then [] else Pad(n / 10, width - 1) + [DigitChar(n % 10)]
  }

  /** The value of a string of decimal digits. */
  function DigitsValue(s: string): nat
    requires AllDigits(s)
  {
    if s == [] then 0
    else DigitsValue(s[..|s| - 1]) * 10 + (s[|s| - 1] as int - '0' as int)
  }

  lemma {:induction false} PadRoundTrip(n: nat, width: nat)
    requires n < Pow10(width)
    ensures DigitsValue(Pad(n, width)) == n
  {
    if width > 0 {
      PadRoundTrip(n / 10, width - 1);
      var p := Pad(n, width);
      assert p[..|p| - 1] == Pad(n / 10, width - 1);
    }
  }

  lemma {:induction false} DigitsRoundTrip(s: string)
    requires AllDigits(s)
    ensures DigitsValue(s) < Pow10(|s|)
    ensures Pad(DigitsValue(s), |s|) == s
  {
    if s != [] {
      var init := s[..|s| - 1];
      DigitsRoundTrip(init);
      var v := DigitsValue(s);
      assert v / 10 == DigitsValue(init) && v % 10 == s[|s| - 1] as int - '0' as int;
      assert s == init + [s[|s| - 1]];
    }
  }

  /** Zero-padding to a fixed width makes text order agree with numeric order. */
  lemma {:induction false} PadOrder(n: nat, m: nat, width: nat)
    requires n < Pow10(width) && m < Pow10(width)
    ensures LexLess(Pad(n, width), Pad(m, width)) <==> n < m
  {
    if width > 0 {
      var w, x, y := width - 1, n / 10, m / 10;
      assert x < Pow10(w) && y < Pow10(w);
      PadOrder(x, y, w);
      PadInjective(x, y, w);
      AppendDigitOrder(Pad(x, w), Pad(y, w), x, y, n % 10, m % 10);
    }
  }

  /** Appending one digit to texts that compare like the numbers `x` and
      `y` gives texts that compare like `10 * x + a` and `10 * y + b`. */
  lemma AppendDigitOrder(p: string, q: string, x: nat, y: nat, a: nat, b: nat)
    requires |p| == |q| && a < 10 && b < 10
    requires LexLess(p, q) <==> x < y
    requires p == q <==> x == y
    ensures LexLess(p + [DigitChar(a)], q + [DigitChar(b)]) <==> 10 * x + a < 10 * y + b
  {
    LexLessConcat(p, [DigitChar(a)], q, [DigitChar(b)]);
    DigitOrder(a, b);
  }

  /** One digit compares as text the way its value compares. */
  lemma DigitOrder(a: nat, b: nat)
    requires a < 10 && b < 10
    ensures LexLess([DigitChar(a)], [DigitChar(b)]) <==> a < b
  {
  }

  // ---------------------------------------------------------------------
  // The two storage formats

  /** ToString("yyyy-MM-dd"). */
  function FormatDate(d: DateTime): (r: string)
    ensures |r| == 10
  {
    Pad(d.year, 4) + "-" + Pad(d.month, 2) + "-" + Pad(d.day, 2)
  }

  /** ToString("yyyy-MM-dd HH:mm:ss"). */
  function FormatTimestamp(d: DateTime): (r: string)
    ensures |r| == 19 && r[..10] == FormatDate(d)
  {
    FormatDate(d) + " " + Pad(d.hour, 2) + ":" + Pad(d.minute, 2) + ":" + Pad(d.second, 2)
  }

  /** DateTime.Parse of text in the "yyyy-MM-dd" form: midnight of that day,
      or None when the text is not a valid date in that form. */
  function ParseDate(t: string): (r: Option<DateTime>)
    ensures r.Some? ==> IsMidnight(r.value)
  {
    if |t| == 10 && AllDigits(t[..4]) && t[4] == '-' && AllDigits(t[5..7]) && t[7] == '-' && AllDigits(t[8..])
    then
      var f := DateTimeFields(DigitsValue(t[..4]), DigitsValue(t[5..7]), DigitsValue(t[8..]), 0, 0, 0, 0);
      if ValidFields(f) then Some(f) else None
    else None
  }

  /** DateTime.Parse of text in the "yyyy-MM-dd HH:mm:ss" form: that instant,
      or None when the text is not a valid timestamp in that form. */
  function ParseTimestamp(t: string): (r: Option<DateTime>)
    ensures r.Some? ==> r.value.subsecond == 0
    ensures r.Some? ==> |t| == 19 && ParseDate(t[..10]) == Some(DateOf(r.value))
  {
    if |t| == 19 && ParseDate(t[..10]).Some? && t[10] == ' '
       && AllDigits(t[11..13]) && t[13] == ':' && AllDigits(t[14..16]) && t[16] == ':' && AllDigits(t[17..])
    then
      var day := ParseDate(t[..10]).value;
      var f := day.(hour := DigitsValue(t[11..13]), minute := DigitsValue(t[14..16]), second := DigitsValue(t[17..]));
      if ValidFields(f) then Some(f) else None
    else None
  }

  /** DateTime.Parse restricted to the two stored forms: the date form for
      text of ten characters, the timestamp form otherwise. */
  function ParseDateTime(t: string): (r: Option<DateTime>)
    ensures r.Some? ==> (|t| == 10 && FormatDate(r.value) == t && IsMidnight(r.value))
                        || (|t| == 19 && FormatTimestamp(r.value) == t && r.value.subsecond == 0)
  {
    if |t| == 10 then
      var r := ParseDate(t);
      if r.Some? then ParsedDateIsFormatted(t); r else r
    else
      var r := ParseTimestamp(t);
      if r.Some? then ParsedTimestampIsFormatted(t); r else r
  }

  /** A stored EntryDate reads back as the day, at midnight. */
  lemma StoredDateReadsBack(d: DateTime)
    ensures ParseDateTime(FormatDate(d)) == Some(DateOf(d))
  {
    DateRoundTrip(d);
  }

  /** A stored CreatedAt reads back as the instant truncated to whole seconds. */
  lemma StoredTimestampReadsBack(d: DateTime)
    ensures ParseDateTime(FormatTimestamp(d)) == Some(TruncateToSeconds(d))
  {
    TimestampRoundTrip(d);
  }

  lemma MidnightIsOwnDate(d: DateTime)
    requires IsMidnight(d)
    ensures DateOf(d) == d
  {
  }

  /** Reading a stored date back gives the day with its time of day dropped. */
  lemma DateRoundTrip(d: DateTime)
    ensures ParseDate(FormatDate(d)) == Some(DateOf(d))
  {
    PadRoundTrip(d.year, 4);
    PadRoundTrip(d.month, 2);
    PadRoundTrip(d.day, 2);
    ParseDateFields(Pad(d.year, 4), Pad(d.month, 2), Pad(d.day, 2));
  }

  /** Reading a stored timestamp back gives the instant truncated to whole seconds. */
  lemma TimestampRoundTrip(d: DateTime)
    ensures ParseTimestamp(FormatTimestamp(d)) == Some(TruncateToSeconds(d))
  {
    DateRoundTrip(d);
    PadRoundTrip(d.hour, 2);
    PadRoundTrip(d.minute, 2);
    PadRoundTrip(d.second, 2);
    ParseTimestampFields(FormatDate(d), Pad(d.hour, 2), Pad(d.minute, 2), Pad(d.second, 2));
  }

  /** The date form read over its three digit fields. */
  lemma ParseDateFields(y: string, m: string, dd: string)
    requires |y| == 4 && |m| == 2 && |dd| == 2 && AllDigits(y) && AllDigits(m) && AllDigits(dd)
    ensures var f := DateTimeFields(DigitsValue(y), DigitsValue(m), DigitsValue(dd), 0, 0, 0, 0);
            ParseDate(y + "-" + m + "-" + dd) == if ValidFields(f) then Some(f) else None
  {
    DateSlices(y, m, dd);
  }

  lemma DateSlices(y: string, m: string, dd: string)
    requires |y| == 4 && |m| == 2 && |dd| == 2
    ensures var t := y + "-" + m + "-" + dd;
            |t| == 10 && t[..4] == y && t[4] == '-' && t[5..7] == m && t[7] == '-' && t[8..] == dd
  {
  }

  /** The timestamp form read over a date and three digit fields. */
  lemma ParseTimestampFields(date: string, h: string, mi: string, sec: string)
    requires |date| == 10 && ParseDate(date).Some?
    requires |h| == 2 && |mi| == 2 && |sec| == 2 && AllDigits(h) && AllDigits(mi) && AllDigits(sec)
    ensures var f := ParseDate(date).value.(hour := DigitsValue(h), minute := DigitsValue(mi), second := DigitsValue(sec));
            ParseTimestamp(date + " " + h + ":" + mi + ":" + sec) == if ValidFields(f) then Some(f) else None
  {
    TimestampSlices(date, h, mi, sec);
  }

  lemma TimestampSlices(date: string, h: string, mi: string, sec: string)
    requires |date| == 10 && |h| == 2 && |mi| == 2 && |sec| == 2
    ensures var t := date + " " + h + ":" + mi + ":" + sec;
            && |t| == 19 && t[..10] == date && t[10] == ' ' && t[11..13] == h && t[13] == ':'
            && t[14..16] == mi && t[16] == ':' && t[17..] == sec
  {
  }

  /** A text that parses as a date is exactly the formatting of that date. */
  lemma ParsedDateIsFormatted(t: string)
    requires ParseDate(t).Some?
    ensures FormatDate(ParseDate(t).value) == t
  {
    DigitsRoundTrip(t[..4]);
    DigitsRoundTrip(t[5..7]);
    DigitsRoundTrip(t[8..]);
    assert t == t[..4] + "-" + t[5..7] + "-" + t[8..];
  }

  /** A text that parses as a timestamp is exactly the formatting of that instant. */
  lemma ParsedTimestampIsFormatted(t: string)
    requires ParseTimestamp(t).Some?
    ensures FormatTimestamp(ParseTimestamp(t).value) == t
  {
    var d := ParseTimestamp(t).value;
    ParsedDateIsFormatted(t[..10]);
    assert FormatDate(d) == FormatDate(DateOf(d));
    DigitsRoundTrip(t[11..13]);
    DigitsRoundTrip(t[14..16]);
    DigitsRoundTrip(t[17..]);
    assert t == t[..10] + " " + t[11..13] + ":" + t[14..16] + ":" + t[17..];
  }

  /** Two instants store the same date text exactly when they fall on the same day. */
  lemma FormatDateInjective(a: DateTime, b: DateTime)
    ensures FormatDate(a) == FormatDate(b) <==> DateOf(a) == DateOf(b)
  {
    DateRoundTrip(a);
    DateRoundTrip(b);
  }

  /** Because "yyyy-MM-dd" is fixed width, text order of stored dates is
      calendar order of the days. */
  lemma FormatDateOrder(a: DateTime, b: DateTime)
    ensures LexLess(FormatDate(a), FormatDate(b)) <==> Before(DateOf(a), DateOf(b))
  {
    FieldsOrder(Pad(a.year, 4), Pad(a.month, 2), Pad(a.day, 2), Pad(b.year, 4), Pad(b.month, 2), Pad(b.day, 2));
    PadOrder(a.year, b.year, 4);
    PadOrder(a.month, b.month, 2);
    PadOrder(a.day, b.day, 2);
    PadInjective(a.year, b.year, 4);
    PadInjective(a.month, b.month, 2);
  }

  lemma PadInjective(n: nat, m: nat, width: nat)
    requires n < Pow10(width) && m < Pow10(width)
    ensures Pad(n, width) == Pad(m, width) <==> n == m
  {
    PadRoundTrip(n, width);
    PadRoundTrip(m, width);
  }

  /** Text order on `y-m-d` with fields of equal widths is the order of the
      years, then of the months, then of the days. */
  lemma FieldsOrder(y1: string, m1: string, d1: string, y2: string, m2: string, d2: string)
    requires |y1| == |y2| && |m1| == |m2|
    ensures LexLess(y1 + "-" + m1 + "-" + d1, y2 + "-" + m2 + "-" + d2)
            <==> LexLess(y1, y2) || (y1 == y2 && (LexLess(m1, m2) || (m1 == m2 && LexLess(d1, d2))))
  {
    var p1, p2 := y1 + "-", y2 + "-";
    var q1, q2 := m1 + "-", m2 + "-";
    assert y1 + "-" + m1 + "-" + d1 == (p1 + q1) + d1;
    assert y2 + "-" + m2 + "-" + d2 == (p2 + q2) + d2;
    LexLessConcat(p1 + q1, d1, p2 + q2, d2);
    LexLessConcat(p1, q1, p2, q2);
    ConcatEqual(p1, q1, p2, q2);
    DashOrder(y1, y2);
    DashOrder(m1, m2);
  }

  lemma ConcatEqual(a1: string, a2: string, b1: string, b2: string)
    requires |a1| == |b1|
    ensures a1 + a2 == b1 + b2 <==> a1 == b1 && a2 == b2
  {
    if a1 + a2 == b1 + b2 {
      assert a1 == (a1 + a2)[..|a1|] && b1 == (b1 + b2)[..|b1|];
      assert a2 == (a1 + a2)[|a1|..] && b2 == (b1 + b2)[|b1|..];
    }
  }

  /** Appending the same separator keeps both the order and the equality. */
  lemma DashOrder(x1: string, x2: string)
    requires |x1| == |x2|
    ensures LexLess(x1 + "-", x2 + "-") <==> LexLess(x1, x2)
    ensures x1 + "-" == x2 + "-" <==> x1 == x2
  {
    LexLessConcat(x1, "-", x2, "-");
    LexLessIrreflexive("-");
    ConcatEqual(x1, "-", x2, "-");
  }
}
