/**
 * The table rows the logger prints: Logger._format_title for a book and
 * Logger._format_log for a log, with the title, the log count and the log
 * record passed in where the source looks them up in the database.
 */
module Rows {
  import opened PyText
  import opened LogParse
  import opened LogIds

  /** TITLE_PRINT_LIMIT: the width of the title column. */
  const TitlePrintLimit: nat := 38
  const BookTableHeaders: string := "id       title"
  /** 'log-id   date        time-span     page-span      depth', written as its headings and the gaps between them. */
  const LogTableHeaders: string :=
    "log-id" + "   " + "date" + "        " + "time-span" + "     " + "page-span" + "      " + "depth"

  /** The title as _format_title shows it: cut to the limit with a '..' marker, then padded to the limit. */
  function TitleField(title: string): (r: string)
    ensures |r| == TitlePrintLimit
    ensures |title| > TitlePrintLimit ==> r == title[..TitlePrintLimit - 2] + ".."
    ensures |title| <= TitlePrintLimit ==>
      r[..|title|] == title && forall i :: |title| <= i < |r| ==> r[i] == ' '
  {
    var shown := if |title| > TitlePrintLimit then title[..TitlePrintLimit - 2] + ".." else title;
    Ljust(shown, TitlePrintLimit)
  }

  /** Logger._format_title: the book id, six spaces, the title field, and a log count when there are logs. */
  function FormatTitle(bookId: int, title: string, logCount: nat): (r: string)
    ensures var w := |IntToString(bookId)|;
      && |r| >= w + 6 + TitlePrintLimit
      && r[..w] == IntToString(bookId)
      && r[w..w + 6] == "      "
      && r[w + 6..w + 6 + TitlePrintLimit] == TitleField(title)
      && (logCount > 0 <==> |r| > w + 6 + TitlePrintLimit)
      && (logCount > 0 ==> r[w + 6 + TitlePrintLimit..] == "   [" + NatToString(logCount) + " log(s)]")
  {
    var id, field := IntToString(bookId), TitleField(title);
    var baseStr := id + "      " + field;
    if logCount > 0 then
      var suffix := "   [" + NatToString(logCount) + " log(s)]";
      ConcatSlices(id, "      ", field, suffix);
      baseStr + suffix
    else
      ConcatSlices(id, "      ", field, "");
      assert baseStr + "" == baseStr;
      baseStr
  }

  /** A book row tells its log count: rows that differ only in the count are different strings. */
  lemma FormatTitleShowsCount(bookId: int, title: string, n1: nat, n2: nat)
    requires FormatTitle(bookId, title, n1) == FormatTitle(bookId, title, n2)
    ensures n1 == n2
  {
    var k := |IntToString(bookId)| + 6 + TitlePrintLimit;
    var r := FormatTitle(bookId, title, n1);
    if n1 > 0 && n2 > 0 {
      var s1, s2 := NatToString(n1), NatToString(n2);
      var a, b := "   [" + s1 + " log(s)]", "   [" + s2 + " log(s)]";
      assert a == r[k..] == b;
      assert |s1| == |s2|;
      assert s1 == a[4..4 + |s1|];
      assert s2 == b[4..4 + |s2|];
    }
  }

  /** For a three-digit book id the title field starts in the column of 'title' in the book table header. */
  lemma BookRowAligned(bookId: int, title: string, logCount: nat)
    requires 100 <= bookId <= 999
    ensures BookTableHeaders[9..] == "title"
    ensures |IntToString(bookId)| == 3
    ensures FormatTitle(bookId, title, logCount)[9..9 + TitlePrintLimit] == TitleField(title)
  {
    ThreeDigits(bookId);
  }

  /** A row of the logs table: (id, book_id, date, time_start, time_end, page_start, page_end, depth). */
  datatype LogRow = LogRow(
    id: int,
    bookId: int,
    date: string,
    timeStart: string,
    timeEnd: string,
    pageStart: int,
    pageEnd: int,
    depth: int)

  function PageSpan(row: LogRow): string {
    IntToString(row.pageStart) + "-" + IntToString(row.pageEnd)
  }

  /**
   * Logger._format_log: the id, date, time span, 'pp.' and the page span
   * padded to nine characters, then the depth, with the source's fixed
   * spacing between them.
   */
  function FormatLog(row: LogRow): (r: string)
    ensures |r| == |IntToString(row.id)| + |row.date| + |row.timeStart| + |row.timeEnd|
      + (if |PageSpan(row)| >= 9 then |PageSpan(row)| else 9) + |IntToString(row.depth)| + 15
    ensures r[..|IntToString(row.id)|] == IntToString(row.id)
    ensures r[|r| - |IntToString(row.depth)|..] == IntToString(row.depth)
  {
    var timeSpan := row.timeStart + "-" + row.timeEnd;
    IntToString(row.id) + "   " + row.date + "  " + timeSpan + "   pp." + Ljust(PageSpan(row), 9) + "   " + IntToString(row.depth)
  }

  /** The heading of each column of the log table, and where it starts. */
  lemma LogHeaderColumns()
    ensures LogTableHeaders[..6] == "log-id" && LogTableHeaders[9..13] == "date"
    ensures LogTableHeaders[21..30] == "time-span" && LogTableHeaders[35..44] == "page-span"
    ensures LogTableHeaders[50..] == "depth"
  {
  }

  /** Column positions of the concatenation _format_log builds, for fields of the given widths. */
  lemma RowColumns(id: string, date: string, span: string, pages: string, depth: string, k: nat)
    requires |id| == 6 && |date| == 10 && |span| == 11 && |pages| == 9 && k <= 9
    ensures var r := id + "   " + date + "  " + span + "   pp." + pages + "   " + depth;
      && |r| >= 50
      && r[..6] == id && r[9..19] == date && r[21..32] == span
      && r[35..38] == "pp." && r[38..38 + k] == pages[..k] && r[50..] == depth
  {
    var tail := "   " + depth;
    var p3 := id + "   " + date + "  " + span + "   pp.";
    assert |p3| == 38;
    var r := p3 + pages + tail;
    assert r == p3 + (pages + tail);
    assert r[..38] == p3;
    assert r[38..38 + k] == (pages + tail)[..k] == pages[..k];
    assert r[50..] == depth;
  }

  /**
   * When the id has six digits, the date ten characters, the times five and
   * the page span at most nine, every field of a log row starts in the
   * column of its heading in the log table header.
   */
  lemma LogRowAligned(row: LogRow)
    requires |IntToString(row.id)| == 6 && |row.date| == 10
    requires |row.timeStart| == 5 && |row.timeEnd| == 5
    requires |PageSpan(row)| <= 9
    ensures LogTableHeaders[..6] == "log-id" && LogTableHeaders[9..13] == "date"
    ensures LogTableHeaders[21..30] == "time-span" && LogTableHeaders[35..44] == "page-span"
    ensures LogTableHeaders[50..] == "depth"
    ensures var r := FormatLog(row);
      && |r| >= 50
      && r[..6] == IntToString(row.id)
      && r[9..19] == row.date
      && r[21..32] == row.timeStart + "-" + row.timeEnd
      && r[35..38] == "pp."
      && r[38..38 + |PageSpan(row)|] == PageSpan(row)
      && r[50..] == IntToString(row.depth)
  {
    LogHeaderColumns();
    var pages := Ljust(PageSpan(row), 9);
    RowColumns(IntToString(row.id), row.date, row.timeStart + "-" + row.timeEnd, pages,
               IntToString(row.depth), |PageSpan(row)|);
  }

  /** The row add_log stores for an entry _get_log accepted, under the log id it composes. */
  function StoredRow(bookId: nat, n: nat, e: LogEntry): LogRow
    requires MinDraw <= n <= MaxDraw
  {
    LogRow(LogId(bookId, n), bookId, e.date, e.timeStart, e.timeEnd, e.pageStart, e.pageEnd, e.depth)
  }

  /**
   * A log of a three-digit book, with pages below 10000, comes out aligned
   * with the log table header.
   */
  lemma StoredRowAligned(bookId: nat, n: nat, e: LogEntry)
    requires 100 <= bookId <= 999 && MinDraw <= n <= MaxDraw
    requires WellFormed(e) && e.pageEnd < 10000
    ensures var r := FormatLog(StoredRow(bookId, n, e));
      r[9..19] == e.date && r[21..32] == e.timeStart + "-" + e.timeEnd
  {
    var row := StoredRow(bookId, n, e);
    assert Pow10(6) == 1000000 && Pow10(5) == 100000;
    NatToStringLength(row.id, 6);
    assert Pow10(4) == 10000;
    PageLength(e.pageStart);
    PageLength(e.pageEnd);
    LogRowAligned(row);
  }

  lemma PageLength(p: nat)
    requires p < 10000
    ensures |IntToString(p)| <= 4
  {
    var k := if p < 10 then 1 else if p < 100 then 2 else if p < 1000 then 3 else 4;
    assert Pow10(1) == 10 && Pow10(2) == 100 && Pow10(3) == 1000 && Pow10(4) == 10000;
    NatToStringLength(p, k);
  }
}
