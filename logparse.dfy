/**
 * Reading one log entry from the line the user types, as Logger._get_log
 * does: '<date> <time-span> <page-span> <depth>', for instance
 * '2023-01-01 12:00-12:30 123-456 1'. The line reaches the model as a
 * parameter instead of through input().
 */
module LogParse {
  import opened Wrappers
  import opened PyText
  import opened Clock

  /**
   * The tuple _get_log returns, (date, (time_start, time_end),
   * (page_start, page_end), depth), with its components named.
   */
  datatype LogEntry = LogEntry(
    date: string,
    timeStart: string,
    timeEnd: string,
    pageStart: int,
    pageEnd: int,
    depth: int)

  /** Python's abs() on an int. */
  function Abs(x: int): nat {
    if x < 0 then -x else x
  }

  /** The time-span token: it must split on '-' into exactly two times strptime accepts. */
  function ParseTimeSpan(token: string): (r: Option<(string, string)>)
    ensures r.Some? <==>
      (|SplitOn(token, '-')| == 2
       && TimeMatches(SplitOn(token, '-')[0]) && TimeMatches(SplitOn(token, '-')[1]))
    ensures r.Some? ==> IsClockTime(r.value.0) && IsClockTime(r.value.1)
  {
    var parts := SplitOn(token, '-');
    if |parts| != 2 then None
    else
      match (ParseTime(parts[0]), ParseTime(parts[1]))
      case (Some(s), Some(e)) =>
        ParseTimeIsClock(parts[0]);
        ParseTimeIsClock(parts[1]);
        Some((s, e))
      case _ => None
  }

  /**
   * The page-span token: it must split on '-' into exactly two integers;
   * each is made non-negative by abs(). A piece between dashes has no minus
   * sign, so abs() leaves both pages as int() read them.
   */
  function ParsePageSpan(token: string): (r: Option<(int, int)>)
    ensures r.Some? ==>
      && |SplitOn(token, '-')| == 2
      && ParseInt(SplitOn(token, '-')[0]) == Some(r.value.0)
      && ParseInt(SplitOn(token, '-')[1]) == Some(r.value.1)
      && 0 <= r.value.0 && 0 <= r.value.1
    ensures
      && |SplitOn(token, '-')| == 2
      && ParseInt(SplitOn(token, '-')[0]).Some?
      && ParseInt(SplitOn(token, '-')[1]).Some?
      ==> r.Some?
  {
    var parts := SplitOn(token, '-');
    if |parts| != 2 then None
    else
      match (ParseInt(parts[0]), ParseInt(parts[1]))
      case (Some(s), Some(e)) => Some((Abs(s), Abs(e)))
      case _ => None
  }

  /**
   * Logger._get_log on the line it reads: None where the source logs
   * 'invalid log.' and returns nothing, whether for the wrong number of
   * tokens, a token that raises while being parsed, or a start after its end.
   */
  function GetLog(line: string): (r: Option<LogEntry>)
    ensures |Split(line)| != 4 ==> r == None
    ensures r.Some? ==>
      var details := Split(line);
      && ParseDate(details[0]) == Some(r.value.date)
      && ParseTimeSpan(details[1]) == Some((r.value.timeStart, r.value.timeEnd))
      && ParsePageSpan(details[2]) == Some((r.value.pageStart, r.value.pageEnd))
      && ParseInt(details[3]).Some? && r.value.depth == Abs(ParseInt(details[3]).value)
  {
    var details := Split(line);
    if |details| != 4 then None
    else
      match (ParseDate(details[0]), ParseTimeSpan(details[1]), ParsePageSpan(details[2]), ParseInt(details[3]))
      case (Some(date), Some((ts, te)), Some((ps, pe)), Some(depth)) =>
        if StrLess(te, ts) || ps > pe then None
        else Some(LogEntry(date, ts, te, ps, pe, Abs(depth)))
      case _ => None
  }

  /**
   * What an accepted entry looks like: a canonical date, canonical times
   * with the start not after the end, and non-negative pages (start not
   * after end) and depth.
   */
  predicate WellFormed(e: LogEntry) {
    && IsIsoDate(e.date)
    && IsClockTime(e.timeStart) && IsClockTime(e.timeEnd)
    && Minutes(e.timeStart) <= Minutes(e.timeEnd)
    && 0 <= e.pageStart <= e.pageEnd
    && 0 <= e.depth
  }

  /** Every entry _get_log returns is well formed. */
  lemma GetLogSound(line: string)
    requires GetLog(line).Some?
    ensures WellFormed(GetLog(line).value)
  {
    var details := Split(line);
    var e := GetLog(line).value;
    ParseDateIsIso(details[0]);
    ClockOrder(e.timeEnd, e.timeStart);
  }

  /** The four tokens that describe an entry in the format _get_log reads. */
  function Tokens(e: LogEntry): seq<string>
    requires 0 <= e.pageStart && 0 <= e.pageEnd && 0 <= e.depth
  {
    [e.date,
     e.timeStart + "-" + e.timeEnd,
     NatToString(e.pageStart) + "-" + NatToString(e.pageEnd),
     NatToString(e.depth)]
  }

  /** The line that describes an entry: its tokens separated by single spaces. */
  function Render(e: LogEntry): string
    requires 0 <= e.pageStart && 0 <= e.pageEnd && 0 <= e.depth
  {
    Join(Tokens(e), " ")
  }

  lemma DigitsNoSpace(s: string)
    requires AllDigits(s)
    ensures NoSpace(s) && '-' !in s && ':' !in s
  {
    assert forall i :: 0 <= i < |s| ==> IsDigit(s[i]);
  }

  lemma IsoDateChars(s: string)
    requires IsIsoDate(s)
    ensures NoSpace(s)
  {
    DigitsNoSpace(s[..4]);
    DigitsNoSpace(s[5..7]);
    DigitsNoSpace(s[8..]);
    assert s == s[..4] + [s[4]] + s[5..7] + [s[7]] + s[8..];
  }

  lemma ClockTimeChars(s: string)
    requires IsClockTime(s)
    ensures NoSpace(s) && '-' !in s
  {
    DigitsNoSpace(s[..2]);
    DigitsNoSpace(s[3..]);
    assert s == s[..2] + [s[2]] + s[3..];
  }

  /** Two pieces without '-' joined by '-' split back into themselves. */
  lemma SpanSplit(a: string, b: string)
    requires '-' !in a && '-' !in b
    ensures SplitOn(a + "-" + b, '-') == [a, b]
  {
    assert [a, b][1..] == [b];
    assert Join([a, b], ['-']) == a + "-" + b;
    SplitOnJoin([a, b], '-');
  }

  lemma SpanNoSpace(a: string, b: string)
    requires NoSpace(a) && NoSpace(b)
    ensures IsWord(a + "-" + b)
  {
    var s := a + "-" + b;
    forall i | 0 <= i < |s| ensures !IsSpace(s[i]) {
      if i < |a| { assert s[i] == a[i]; }
      else if i > |a| { assert s[i] == b[i - |a| - 1]; }
    }
  }

  lemma RenderSplit(e: LogEntry)
    requires WellFormed(e)
    ensures Split(Render(e)) == Tokens(e)
  {
    var ds, dp, dd := NatToString(e.pageStart), NatToString(e.pageEnd), NatToString(e.depth);
    IsoDateChars(e.date);
    ClockTimeChars(e.timeStart);
    ClockTimeChars(e.timeEnd);
    DigitsNoSpace(ds);
    DigitsNoSpace(dp);
    DigitsNoSpace(dd);
    SpanNoSpace(e.timeStart, e.timeEnd);
    SpanNoSpace(ds, dp);
    FourWords(e.date, e.timeStart + "-" + e.timeEnd, ds + "-" + dp, dd);
  }

  lemma FourWords(a: string, b: string, c: string, d: string)
    requires IsWord(a) && IsWord(b) && IsWord(c) && IsWord(d)
    ensures Split(Join([a, b, c, d], " ")) == [a, b, c, d]
  {
    var t := [a, b, c, d];
    assert forall i :: 0 <= i < |t| ==> IsWord(t[i]);
    SplitJoin(t);
  }

  /**
   * The converse of GetLog's contract: _get_log accepts every line of four
   * tokens that parse, with the start time not after the end and the first
   * page not after the last, and abs() turns a negative depth positive.
   */
  lemma GetLogAccepts(line: string, e: LogEntry, depth: int)
    requires |Split(line)| == 4
    requires ParseDate(Split(line)[0]) == Some(e.date)
    requires ParseTimeSpan(Split(line)[1]) == Some((e.timeStart, e.timeEnd))
    requires ParsePageSpan(Split(line)[2]) == Some((e.pageStart, e.pageEnd))
    requires ParseInt(Split(line)[3]) == Some(depth) && e.depth == Abs(depth)
    requires !StrLess(e.timeEnd, e.timeStart) && e.pageStart <= e.pageEnd
    ensures GetLog(line) == Some(e)
  {
  }

  lemma TimeSpanRoundTrip(s: string, e: string)
    requires IsClockTime(s) && IsClockTime(e)
    ensures ParseTimeSpan(s + "-" + e) == Some((s, e))
  {
    ClockTimeChars(s);
    ClockTimeChars(e);
    SpanSplit(s, e);
    ClockTimeFixpoint(s);
    ClockTimeFixpoint(e);
  }

  lemma PageSpanRoundTrip(s: nat, e: nat)
    ensures ParsePageSpan(NatToString(s) + "-" + NatToString(e)) == Some((s, e))
  {
    DigitsNoSpace(NatToString(s));
    DigitsNoSpace(NatToString(e));
    SpanSplit(NatToString(s), NatToString(e));
    ParseNatToString(s);
    ParseNatToString(e);
  }

  /**
   * _get_log accepts the rendering of every well-formed entry and returns
   * that entry: together with GetLogSound, the entries _get_log can return
   * are exactly the well-formed ones.
   */
  lemma RenderRoundTrip(e: LogEntry)
    requires WellFormed(e)
    ensures GetLog(Render(e)) == Some(e)
  {
    RenderSplit(e);
    IsoDateFixpoint(e.date);
    TimeSpanRoundTrip(e.timeStart, e.timeEnd);
    PageSpanRoundTrip(e.pageStart, e.pageEnd);
    ParseNatToString(e.depth);
    ClockOrder(e.timeEnd, e.timeStart);
    GetLogAccepts(Render(e), e, e.depth);
  }

  /** Reading the rendering of an accepted entry gives the same entry: _get_log's normalisation is idempotent. */
  lemma GetLogIdempotent(line: string)
    requires GetLog(line).Some?
    ensures GetLog(Render(GetLog(line).value)) == GetLog(line)
  {
    GetLogSound(line);
    RenderRoundTrip(GetLog(line).value);
  }
}
