/**
 * Dates and times as the logger reads them: datetime.strptime with the
 * formats '%Y-%m-%d' and '%H:%M', followed by str() of the resulting date
 * or time, which writes the canonical zero-padded form.
 *
 * The regular expressions strptime uses for the fields are
 *   %Y  four digits,
 *   %m  1[0-2] | 0[1-9] | [1-9],
 *   %d  3[01] | [12][0-9] | 0[1-9] | [1-9],
 *   %H  2[0-3] | [01][0-9] | [0-9],
 *   %M  [0-5][0-9] | [0-9],
 * and none of them can match the separator. Each of %m, %d, %H and %M thus
 * accepts exactly the strings of one or two digits whose value lies in the
 * field's range, and the token must split on the separator into exactly the
 * field texts (strptime rejects text left over after the match).
 */
module Clock {
  import opened Wrappers
  import opened PyText

  predicate IsLeapYear(y: int) {
    (y % 4 == 0 && y % 100 != 0) || y % 400 == 0
  }

  function DaysInMonth(y: int, m: int): int
    requires 1 <= m <= 12
  {
    if m == 2 then (if IsLeapYear(y) then 29 else 28)
    else if m == 4 || m == 6 || m == 9 || m == 11 then 30
    else 31
  }

  /** What datetime.date accepts: year 1 to 9999, a month, and a day that exists in that month. */
  predicate IsValidDate(y: int, m: int, d: int) {
    1 <= y <= 9999 && 1 <= m <= 12 && 1 <= d <= DaysInMonth(y, m)
  }

  /** The text of a %m, %d, %H or %M field: one or two ASCII digits, and their value. */
  function ShortField(s: string): (r: Option<nat>)
    ensures r.Some? <==> 1 <= |s| <= 2 && AllDigits(s)
    ensures r.Some? ==> r.value == Value(s) && r.value < 100
  {
    if 1 <= |s| <= 2 && AllDigits(s) then
      ValueBound(s);
      Some(Value(s))
    else None
  }

  // ---------------------------------------------------------------------
  // strptime's field patterns, alternative by alternative
  // ---------------------------------------------------------------------

  /** %m: 1[0-2] | 0[1-9] | [1-9]. */
  predicate MonthPattern(s: string) {
    || (|s| == 2 && s[0] == '1' && '0' <= s[1] <= '2')
    || (|s| == 2 && s[0] == '0' && '1' <= s[1] <= '9')
    || (|s| == 1 && '1' <= s[0] <= '9')
  }

  /** %d without its ' '[1-9] alternative: 3[01] | [12][0-9] | 0[1-9] | [1-9]. */
  predicate DayPattern(s: string) {
    || (|s| == 2 && s[0] == '3' && '0' <= s[1] <= '1')
    || (|s| == 2 && '1' <= s[0] <= '2' && IsDigit(s[1]))
    || (|s| == 2 && s[0] == '0' && '1' <= s[1] <= '9')
    || (|s| == 1 && '1' <= s[0] <= '9')
  }

  /** %H: 2[0-3] | [01][0-9] | [0-9]. */
  predicate HourPattern(s: string) {
    || (|s| == 2 && s[0] == '2' && '0' <= s[1] <= '3')
    || (|s| == 2 && '0' <= s[0] <= '1' && IsDigit(s[1]))
    || (|s| == 1 && IsDigit(s[0]))
  }

  /** %M: [0-5][0-9] | [0-9]. */
  predicate MinutePattern(s: string) {
    || (|s| == 2 && '0' <= s[0] <= '5' && IsDigit(s[1]))
    || (|s| == 1 && IsDigit(s[0]))
  }

  /** The value of a field of one or two digits, digit by digit. */
  lemma ShortValue(s: string)
    requires 1 <= |s| <= 2 && AllDigits(s)
    ensures Value(s) == if |s| == 1 then DigitValue(s[0]) else 10 * DigitValue(s[0]) + DigitValue(s[1])
  {
    if |s| == 1 {
      assert s[..0] == [];
    } else {
      TwoDigitValue(s);
    }
  }

  /** A field that one of the patterns matches is one or two ASCII digits. */
  lemma PatternDigits(s: string)
    requires MonthPattern(s) || DayPattern(s) || HourPattern(s) || MinutePattern(s)
    ensures 1 <= |s| <= 2 && AllDigits(s)
  {
  }

  /** %m matches a field exactly when it is one or two digits with a value from 1 to 12. */
  lemma MonthPatternField(s: string)
    ensures MonthPattern(s) <==> ShortField(s).Some? && 1 <= ShortField(s).value <= 12
  {
    if 1 <= |s| <= 2 && AllDigits(s) { ShortValue(s); }
    if MonthPattern(s) { PatternDigits(s); }
  }

  /** %d matches a field exactly when it is one or two digits with a value from 1 to 31. */
  lemma DayPatternField(s: string)
    ensures DayPattern(s) <==> ShortField(s).Some? && 1 <= ShortField(s).value <= 31
  {
    if 1 <= |s| <= 2 && AllDigits(s) { ShortValue(s); }
    if DayPattern(s) { PatternDigits(s); }
  }

  /** %H matches a field exactly when it is one or two digits with a value from 0 to 23. */
  lemma HourPatternField(s: string)
    ensures HourPattern(s) <==> ShortField(s).Some? && ShortField(s).value <= 23
  {
    if 1 <= |s| <= 2 && AllDigits(s) { ShortValue(s); }
    if HourPattern(s) { PatternDigits(s); }
  }

  /** %M matches a field exactly when it is one or two digits with a value from 0 to 59. */
  lemma MinutePatternField(s: string)
    ensures MinutePattern(s) <==> ShortField(s).Some? && ShortField(s).value <= 59
  {
    if 1 <= |s| <= 2 && AllDigits(s) { ShortValue(s); }
    if MinutePattern(s) { PatternDigits(s); }
  }

  /**
   * strptime(token, '%Y-%m-%d') matches the whole token and datetime.date
   * accepts the fields. The fields cannot match '-', so the token matches
   * exactly when its pieces between the dashes match the fields one by one.
   */
  predicate DateMatches(token: string) {
    var parts := SplitOn(token, '-');
    && |parts| == 3 && |parts[0]| == 4 && AllDigits(parts[0])
    && MonthPattern(parts[1]) && DayPattern(parts[2])
    && AllDigits(parts[1]) && AllDigits(parts[2])
    && IsValidDate(Value(parts[0]), Value(parts[1]), Value(parts[2]))
  }

  /** strptime(token, '%H:%M') matches the whole token. */
  predicate TimeMatches(token: string) {
    var parts := SplitOn(token, ':');
    |parts| == 2 && HourPattern(parts[0]) && MinutePattern(parts[1])
  }

  /** str(date): date.isoformat(), '%04d-%02d-%02d'. */
  function DateString(y: nat, m: nat, d: nat): string
    requires y < 10000 && m < 100 && d < 100
  {
    ZeroPad(y, 4) + "-" + ZeroPad(m, 2) + "-" + ZeroPad(d, 2)
  }

  /** str(datetime.strptime(token, '%Y-%m-%d').date()), or None where strptime raises ValueError. */
  function ParseDate(token: string): (r: Option<string>)
    ensures r.Some? <==> DateMatches(token)
  {
    var parts := SplitOn(token, '-');
    if |parts| != 3 || |parts[0]| != 4 || !AllDigits(parts[0]) then None
    else
      MonthPatternField(parts[1]);
      DayPatternField(parts[2]);
      match (ShortField(parts[1]), ShortField(parts[2]))
      case (Some(m), Some(d)) =>
        var y := Value(parts[0]);
        if IsValidDate(y, m, d) then Some(DateString(y, m, d)) else None
      case _ => None
  }

  /** A date in the canonical 'YYYY-MM-DD' form that names a real calendar day. */
  predicate IsIsoDate(s: string) {
    |s| == 10 && s[4] == '-' && s[7] == '-'
    && AllDigits(s[..4]) && AllDigits(s[5..7]) && AllDigits(s[8..])
    && IsValidDate(Value(s[..4]), Value(s[5..7]), Value(s[8..]))
  }

  /** str(time): time.isoformat() of a time without microseconds, '%02d:%02d:%02d'. */
  function TimeString(h: nat, m: nat, s: nat): string
    requires h < 100 && m < 100 && s < 100
  {
    ZeroPad(h, 2) + ":" + ZeroPad(m, 2) + ":" + ZeroPad(s, 2)
  }

  /** str(datetime.strptime(token, '%H:%M').time())[:-3], or None where strptime raises ValueError. */
  function ParseTime(token: string): (r: Option<string>)
    ensures r.Some? <==> TimeMatches(token)
  {
    var parts := SplitOn(token, ':');
    if |parts| != 2 then None
    else
      HourPatternField(parts[0]);
      MinutePatternField(parts[1]);
      match (ShortField(parts[0]), ShortField(parts[1]))
      case (Some(h), Some(m)) =>
        if h <= 23 && m <= 59 then
          var full := TimeString(h, m, 0);
          Some(full[..|full| - 3])
        else None
      case _ => None
  }

  /** A time of day in the canonical 'HH:MM' form. */
  predicate IsClockTime(s: string) {
    |s| == 5 && s[2] == ':' && AllDigits(s[..2]) && AllDigits(s[3..])
    && Value(s[..2]) <= 23 && Value(s[3..]) <= 59
  }

  /** Minutes since midnight of a canonical time. */
  function Minutes(s: string): nat
    requires IsClockTime(s)
  {
    Value(s[..2]) * 60 + Value(s[3..])
  }

  // ---------------------------------------------------------------------
  // What normalisation guarantees
  // ---------------------------------------------------------------------

  lemma DateStringIsIso(y: nat, m: nat, d: nat)
    requires IsValidDate(y, m, d)
    ensures IsIsoDate(DateString(y, m, d))
  {
    var s := DateString(y, m, d);
    assert s[..4] == ZeroPad(y, 4);
    assert s[5..7] == ZeroPad(m, 2);
    assert s[8..] == ZeroPad(d, 2);
  }

  /** A date strptime accepts comes out in the canonical form, with the year, month and day that were typed. */
  lemma ParseDateIsIso(token: string)
    requires ParseDate(token).Some?
    ensures IsIsoDate(ParseDate(token).value)
    ensures var parts := SplitOn(token, '-');
      var r := ParseDate(token).value;
      && AllDigits(parts[0]) && AllDigits(parts[1]) && AllDigits(parts[2])
      && Value(r[..4]) == Value(parts[0])
      && Value(r[5..7]) == Value(parts[1])
      && Value(r[8..]) == Value(parts[2])
  {
    var parts := SplitOn(token, '-');
    var y, m, d := Value(parts[0]), Value(parts[1]), Value(parts[2]);
    DateStringIsIso(y, m, d);
    var r := DateString(y, m, d);
    assert r[..4] == ZeroPad(y, 4);
    assert r[5..7] == ZeroPad(m, 2);
    assert r[8..] == ZeroPad(d, 2);
  }

  /** The canonical form of a date splits on '-' into its year, month and day. */
  lemma IsoDateParts(s: string)
    requires IsIsoDate(s)
    ensures SplitOn(s, '-') == [s[..4], s[5..7], s[8..]]
  {
    var y, m, d := s[..4], s[5..7], s[8..];
    assert [y, m, d][1..] == [m, d] && [m, d][1..] == [d];
    assert s == y + "-" + m + "-" + d;
    assert Join([d], "-") == d;
    assert Join([m, d], "-") == m + "-" + d;
    assert Join([y, m, d], "-") == y + "-" + (m + "-" + d);
    assert '-' !in y && '-' !in m && '-' !in d by {
      assert forall i :: 0 <= i < |y| ==> IsDigit(y[i]);
      assert forall i :: 0 <= i < |m| ==> IsDigit(m[i]);
      assert forall i :: 0 <= i < |d| ==> IsDigit(d[i]);
    }
    SplitOnJoin([y, m, d], '-');
    assert Join([y, m, d], ['-']) == s;
  }

  /** Zero-padding the values of a canonical date's fields writes the date again. */
  lemma IsoDateString(s: string)
    requires IsIsoDate(s)
    ensures DateString(Value(s[..4]), Value(s[5..7]), Value(s[8..])) == s
  {
    var y, m, d := s[..4], s[5..7], s[8..];
    ZeroPadValue(y);
    ZeroPadValue(m);
    ZeroPadValue(d);
    assert s == y + "-" + m + "-" + d;
  }

  /** The canonical form of a date is accepted and left as it is: normalising is idempotent. */
  lemma IsoDateFixpoint(s: string)
    requires IsIsoDate(s)
    ensures ParseDate(s) == Some(s)
  {
    var y, m, d := s[..4], s[5..7], s[8..];
    IsoDateParts(s);
    IsoDateString(s);
    assert ShortField(m) == Some(Value(m)) && ShortField(d) == Some(Value(d));
  }

  lemma TimeStringPrefix(h: nat, m: nat)
    requires h <= 23 && m <= 59
    ensures var full := TimeString(h, m, 0);
            full[..|full| - 3] == ZeroPad(h, 2) + ":" + ZeroPad(m, 2)
            && IsClockTime(full[..|full| - 3])
            && Minutes(full[..|full| - 3]) == h * 60 + m
  {
    var t := ZeroPad(h, 2) + ":" + ZeroPad(m, 2);
    var full := TimeString(h, m, 0);
    assert full == t + ":" + ZeroPad(0, 2);
    assert full[..|full| - 3] == t;
    assert t[..2] == ZeroPad(h, 2) && t[3..] == ZeroPad(m, 2);
  }

  /** A time strptime accepts comes out as canonical 'HH:MM' with the hour and minute that were written. */
  lemma ParseTimeIsClock(token: string)
    requires ParseTime(token).Some?
    ensures IsClockTime(ParseTime(token).value)
    ensures var parts := SplitOn(token, ':');
            AllDigits(parts[0]) && AllDigits(parts[1])
            && Minutes(ParseTime(token).value) == Value(parts[0]) * 60 + Value(parts[1])
  {
    var parts := SplitOn(token, ':');
    TimeStringPrefix(Value(parts[0]), Value(parts[1]));
  }

  /** A canonical time is accepted and left as it is. */
  lemma {:induction false} ClockTimeFixpoint(s: string)
    requires IsClockTime(s)
    ensures ParseTime(s) == Some(s)
  {
    var h, m := s[..2], s[3..];
    assert [h, m][1..] == [m];
    assert s == h + ":" + m;
    assert Join([h, m], ":") == h + ":" + m;
    assert ':' !in h && ':' !in m by {
      assert forall i :: 0 <= i < |h| ==> IsDigit(h[i]);
      assert forall i :: 0 <= i < |m| ==> IsDigit(m[i]);
    }
    SplitOnJoin([h, m], ':');
    ZeroPadValue(h);
    ZeroPadValue(m);
    TimeStringPrefix(Value(h), Value(m));
    assert s == ZeroPad(Value(h), 2) + ":" + ZeroPad(Value(m), 2);
  }

  lemma TwoDigitValue(x: string)
    requires |x| == 2 && AllDigits(x)
    ensures Value(x) == 10 * DigitValue(x[0]) + DigitValue(x[1])
  {
    var p := x[..1];
    assert |p| == 1 && p[0] == x[0] && AllDigits(p);
    assert p[..0] == [];
    assert Value(p) == 10 * Value(p[..0]) + DigitValue(p[0]);
    assert Value(x) == 10 * Value(p) + DigitValue(x[1]);
  }

  lemma TwoDigitOrder(x: string, y: string)
    requires |x| == 2 && |y| == 2 && AllDigits(x) && AllDigits(y)
    ensures StrLess(x, y) <==> Value(x) < Value(y)
    ensures x == y <==> Value(x) == Value(y)
  {
    TwoDigitValue(x);
    TwoDigitValue(y);
    assert x[1..][0] == x[1] && y[1..][0] == y[1];
    assert x[1..][1..] == [] && y[1..][1..] == [];
    assert StrLess(x, y) == if x[0] != y[0] then x[0] < y[0] else StrLess(x[1..], y[1..]);
    assert StrLess(x[1..], y[1..]) == if x[1] != y[1] then x[1] < y[1] else StrLess([], []);
    if x[0] == y[0] && x[1] == y[1] {
      assert x == [x[0], x[1]] && y == [y[0], y[1]];
    }
  }

  /**
   * Comparing two canonical times as strings, as the logger does, agrees
   * with comparing them as times of day.
   */
  lemma ClockOrder(a: string, b: string)
    requires IsClockTime(a) && IsClockTime(b)
    ensures StrLess(a, b) <==> Minutes(a) < Minutes(b)
  {
    assert a == a[..2] + a[2..] && b == b[..2] + b[2..];
    StrLessConcat(a[..2], a[2..], b[..2], b[2..]);
    TwoDigitOrder(a[..2], b[..2]);
    assert a[2..] == [':'] + a[3..] && b[2..] == [':'] + b[3..];
    StrLessConcat([':'], a[3..], [':'], b[3..]);
    TwoDigitOrder(a[3..], b[3..]);
  }
}
