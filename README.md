# Reading-log core, modelled in Dafny

This project models the string-handling core of `logger.py`, the early SQLite
version of a command-line tool that records books and reading sessions
("logs"). The model covers five parts:

- how a typed log entry such as `2023-01-01 12:00-12:30 123-456 1` is read and
  validated (`Logger._get_log`);
- how a book row and a log row are printed (`Logger._format_title`,
  `Logger._format_log`);
- how ids are drawn (`Logger._get_id`) and how a log id is composed from
  a book id (`add_log`);
- the yes/no confirmation loop (`Logger._confirm`);
- the Python built-ins these rely on: `str.split()`, `str.split(sep)`, `int()`,
  `str()`, `str.ljust`, `str.lower`, string comparison, and
  `datetime.strptime` with `'%Y-%m-%d'` and `'%H:%M'` followed by `str()`.

Where the source reads from the terminal, draws a random number or queries
the database, the model takes those values as parameters instead: the line
typed, the sequence of responses, the sequence of random draws, the set of
ids already in a table, and the title and log count of a book.

Files and modules:

| file | module | models |
|---|---|---|
| wrappers.dfy | Wrappers | `Option`, standing for Python's `None` return |
| pytext.dfy | PyText | Python string built-ins |
| clock.dfy | Clock | `strptime` and `str()` of dates and times |
| logparse.dfy | LogParse | `_get_log` |
| logids.dfy | LogIds | `_get_id` and log-id composition in `add_log` |
| rows.dfy | Rows | `_format_title`, `_format_log` and the table headers |
| confirm.dfy | Confirm | `_confirm` |

Notes on how the model reads the code:

- `strptime`'s field patterns for `%m`, `%d`, `%H` and `%M` each accept
  exactly the strings of one or two digits whose value lies in range
  (`Clock.MonthPatternField` and the three lemmas beside it). None of them
  can match a `-` or a `:`. So a token is accepted exactly when it splits on
  the separator into such fields (`Clock`'s module comment).
- `_get_log` compares the two times as strings (`time_start > time_end`).
  The model compares them the same way. `Clock.ClockOrder` proves that this
  agrees with time of day once both are in canonical `HH:MM` form.
- A page number can never be negative. `details[2].split('-')` has already
  split at every minus sign, so `abs()` only changes the depth.
- Equal start and end times are accepted: logger.py:155 rejects only
  `time_start > time_end`.
- `_confirm` (logger.py:195-206) loops until a response lower-cases to `y`
  or `n`. `settings.py:74` defines `RESPONSES_CONFIRM = {'yes', 'y', 'delete'}`,
  but this `logger.py` does not use it.

## Model

| member | source | states |
|---|---|---|
| PyText.Split | logger.py:143 | every piece `str.split()` returns is non-empty and contains no whitespace |
| PyText.SplitJoin | logger.py:143 | splitting words joined by single spaces gives back exactly those words |
| PyText.SplitLeadingSpace | logger.py:143 | whitespace before the text does not change what `str.split()` returns |
| PyText.SplitWordSpaces | logger.py:143 | a word followed by any non-empty run of whitespace is one piece, whatever the run holds |
| PyText.SplitOn | logger.py:151-152 | `s.split(sep)` returns at least one piece and no piece contains the separator |
| PyText.JoinSplitOn | logger.py:151-152 | joining the pieces of `s.split(sep)` with `sep` restores `s` |
| PyText.SplitOnJoin | logger.py:151-152 | pieces without the separator, joined by it, split back into the same pieces |
| PyText.NatToString | logger.py:217 | `str(n)` is a non-empty digit string that denotes `n`, with a leading zero only for 0 |
| PyText.IntToString | logger.py:217 | `str(i)` is non-empty and starts with `-` exactly when i is negative |
| PyText.IntToStringDigits | logger.py:217 | after its sign, `str(i)` is a numeral denoting abs(i), with a leading zero only for 0 |
| PyText.NatToStringLength | logger.py:217 | `str(n)` has exactly k characters when 10^(k-1) <= n < 10^k |
| PyText.ValueConcat | logger.py:289 | the digits of `s + t` denote value(s) * 10^len(t) + value(t) |
| PyText.ZeroPad | logger.py:150-151 | `'%0Nd'` gives exactly N digits that denote the number |
| PyText.ZeroPadValue | logger.py:150-151 | zero-padding a digit string's value to its own length gives the string back |
| PyText.ParseInt | logger.py:152-153 | `int()` succeeds exactly on digit groups (single underscores between digits), optionally after one `+` or `-`; without a `-` the result is non-negative |
| PyText.ParseNatToString | logger.py:152-153 | `int(str(n)) == n` for every natural number |
| PyText.ParseIntToString | logger.py:152-153 | `int(str(i)) == i` for every integer, negative ones included |
| PyText.ParseSigned | logger.py:152-153 | `int()` of a `-` or `+` followed by digits is the digits' value, negated after `-`, leading zeros included |
| PyText.ParseIntOfDigits | logger.py:289 | `int()` of a digit string is the value of its digits |
| PyText.Ljust | logger.py:217 | `s.ljust(w)` is `s` followed by spaces up to width `w`, and `s` unchanged when it is already that long |
| PyText.Lower | logger.py:203 | `s.lower()` on ASCII letters: the length is kept, each capital A-Z becomes its small letter, every other character is left alone, and no capital A-Z remains |
| PyText.StrLessOrder | logger.py:155 | the string `<` used on the times is a strict total order: irreflexive, asymmetric, and any two different strings compare |
| PyText.StrLessConcat | logger.py:155 | after equally long prefixes, a string comparison is decided by the prefixes unless they are equal |
| Clock.MonthPatternField | logger.py:150 | `%m`'s alternatives `1[0-2]`, `0[1-9]`, `[1-9]` match exactly the one- or two-digit fields with value 1..12 |
| Clock.DayPatternField | logger.py:150 | `%d`'s alternatives `3[01]`, `[12][0-9]`, `0[1-9]`, `[1-9]` match exactly the one- or two-digit fields with value 1..31 |
| Clock.HourPatternField | logger.py:151 | `%H`'s alternatives `2[0-3]`, `[01][0-9]`, `[0-9]` match exactly the one- or two-digit fields with value 0..23 |
| Clock.MinutePatternField | logger.py:151 | `%M`'s alternatives `[0-5][0-9]`, `[0-9]` match exactly the one- or two-digit fields with value 0..59 |
| Clock.ParseDate | logger.py:150 | a date token is accepted exactly when `'%Y-%m-%d'`'s fields match its pieces between dashes and they name a real calendar day |
| Clock.ParseTime | logger.py:151 | a time token is accepted exactly when `'%H:%M'`'s fields match its two pieces around the colon |
| Clock.ParseDateIsIso | logger.py:150 | every date `strptime` accepts comes out as canonical `YYYY-MM-DD` naming a real calendar day, with the year, month and day that were typed |
| Clock.IsoDateString | logger.py:150 | zero-padding the field values of a canonical date writes the same date |
| Clock.IsoDateFixpoint | logger.py:150 | a canonical date is accepted and left unchanged, so date normalisation is idempotent |
| Clock.TimeStringPrefix | logger.py:151 | `str(time)[:-3]` is `HH:MM`, canonical, with the minutes since midnight of the hour and minute |
| Clock.ParseTimeIsClock | logger.py:151 | every time `strptime` accepts comes out as canonical `HH:MM` with the hour and minute that were typed |
| Clock.ClockTimeFixpoint | logger.py:151 | a canonical `HH:MM` time is accepted and left unchanged |
| Clock.ClockOrder | logger.py:155 | comparing canonical times as strings agrees with comparing them as times of day |
| LogParse.GetLog | logger.py:138-164 | no entry unless the line has exactly four whitespace-separated tokens; on success the date, the time span, the page span and the depth are what the four tokens parse to, with abs() applied to the depth |
| LogParse.ParseTimeSpan | logger.py:151 | a time span is accepted exactly when it has two pieces around one `-` and strptime matches both; both results are canonical `HH:MM` |
| LogParse.ParsePageSpan | logger.py:152 | a page span is accepted exactly when it has two pieces around one `-` and `int()` reads both; the pages are what `int()` reads, and `abs()` changes nothing because neither piece holds a minus sign |
| LogParse.GetLogAccepts | logger.py:143-160 | a line of four tokens that all parse, with start time not after end time and first page not after last, is accepted; a negative depth is turned positive by `abs()` |
| LogParse.GetLogSound | logger.py:149-160 | every accepted entry has a canonical date, canonical times with start <= end, 0 <= page_start <= page_end and depth >= 0 |
| LogParse.TimeSpanRoundTrip | logger.py:151 | two canonical times joined by `-` read back as the same pair |
| LogParse.PageSpanRoundTrip | logger.py:152 | two natural numbers joined by `-` read back as the same pair |
| LogParse.RenderSplit | logger.py:143-145 | the line written for a well-formed entry splits into its four tokens |
| LogParse.RenderRoundTrip | logger.py:138-164 | every well-formed entry, equal start and end included, is accepted from its rendering and comes back unchanged |
| LogParse.GetLogIdempotent | logger.py:150-160 | reading the rendering of an accepted entry gives the same entry again |
| LogIds.FirstFresh | logger.py:126-136 | the id found is one of the draws and is not already taken |
| LogIds.FirstFreshIsFirst | logger.py:126-136 | the id found is the earliest draw not taken; nothing is found only if every draw is taken |
| LogIds.GetId | logger.py:121-136 | `_get_id` loops over the draws and returns the first one not in the chosen table, which lies in 100..999 |
| LogIds.LogIdDigits | logger.py:289 | `int(str(book_id) + str(n))` parses to book_id * 1000 + n for 100 <= n <= 999 |
| LogIds.LogId | logger.py:289 | a log id is book_id * 1000 + n, so `id / 1000` is the book id and `id % 1000` is the draw |
| LogIds.AddLogIdAsWritten | logger.py:288-289 | as written, there is an id unless every draw is itself a log id; the id belongs to the book, and its last three digits are a draw that is not a log id |
| LogIds.AsWrittenCheckIsVacuous | logger.py:129-136 | as written, once every stored log id has four or more digits, `_get_id('log')` accepts the very first draw |
| LogIds.AsWrittenCollision | logger.py:288-290 | as written, book 123 with log 123456 and a draw of 456 produce the id 123456, which is already in the logs table |
| LogIds.LogIdTaken | logger.py:289 | the composed id is already stored iff its draw is among the numbers used by that book's logs |
| LogIds.FreshLogId | logger.py:288-290 | with the freshness test done on the composed id, the new log id is not stored yet, belongs to the book and ends in a draw from 100..999; there is none only when every draw's composed id is stored |
| LogIds.NewLogId | logger.py:288-290 | the corrected loop returns the first draw whose composed id is unused, and that id is not in the logs table |
| Rows.TitleField | logger.py:216-217 | the title field is always exactly 38 characters: a longer title becomes its first 36 characters plus `..`; a shorter one is followed by spaces |
| Rows.FormatTitle | logger.py:208-222 | a book row is the id, six spaces and the 38-character title field, and the `   [N log(s)]` suffix is added iff the count is positive |
| Rows.FormatTitleShowsCount | logger.py:219-222 | two rows for one book and title that differ in their log count are different strings |
| Rows.BookRowAligned | logger.py:217 | for a three-digit book id the title field starts where `title` stands in the book table header |
| Rows.FormatLog | logger.py:224-235 | a log row starts with the id and ends with the depth, and its length is the fields' lengths plus 15 characters of fixed spacing, with the page span padded to 9 |
| Rows.LogRowAligned | logger.py:224-235 | with a 6-digit id, a 10-character date, 5-character times and a page span of at most 9 characters, each field of a log row starts under its heading |
| Rows.StoredRowAligned | logger.py:289-293 | the row stored for an accepted entry of a three-digit book, with pages below 10000, has its date and time span under their headings |
| Rows.PageLength | logger.py:233-235 | a page number below 10000 prints in at most four characters |
| Confirm.Confirm | logger.py:195-206 | no answer iff no response lower-cases to `y` or `n`; otherwise the answer is true iff the first such response is `y`, and every earlier response is ignored |
| Confirm.AnswerForms | logger.py:200-206 | the responses accepted are exactly `y`, `Y`, `n` and `N`, and only `y` and `Y` mean yes |

## Findings

| source | as written | input that shows it | evidently intended | confidence | as-written member | corrected member |
|---|---|---|---|---|---|---|
| logger.py:129-136 | `add_log` asks `_get_id('log')` for a number n and checks that n is not a log id. It then stores the log under `int(str(book_id) + str(n))`. Stored log ids all have six or more digits, so the test never rejects a draw, and the composed id can already exist, which breaks the PRIMARY KEY | book 123 already has log 123456 and the next draw is 456 | check the composed id book_id * 1000 + n against the logs table | not executed; high | LogIds.AsWrittenCollision | LogIds.NewLogId |

## Left out

- Database access is not modelled: `_setup_db`, `_get_title_from_log_id`, `_get_title_from_book_id`, `_get_log_count`, the inserts and deletes in `add_*`, `change_*` and `delete_*`, and the `with self.conn` transaction in `run` all go through the sqlite3 library. Their results are parameters instead.
- Argument parsing is not modelled: `ParseArgs`, `_log_id` and `_book_id` are argparse wiring plus database lookups.
- Output and dispatch are not modelled: `print_log`, `print_book`, `show_log`, `show_book`, `run` and `main` only log text and call the modelled parts. `_get_log`'s 'invalid log.' message is likewise reduced to returning None.
- `change_log` is not modelled as a working operation. It uses an undefined `book_id` (logger.py:333), so it raises NameError once the user confirms.
- Terminal input, random draws and endless loops: `input()` and `randint` become finite sequences. When `_confirm` or `_get_id` runs out of input, the model returns None, where the source would block or draw again.
- Unicode digits are left out: the model accepts only ASCII digits, while Python's `\d` in `strptime` and `int()` also accept other decimal digits. Whitespace around an `int()` argument is left out too, since the tokens cannot contain any.
- Clock.DayPattern: `%d` has one more alternative, `' '` followed by a digit. It is left out because `str.split()` never leaves a space inside a token.
- PyText.Lower: only ASCII capitals are lowered. Python's `str.lower()` also lowers other capitals, and can lengthen a string, as with `'İ'`. This cannot change `_confirm`'s answers, since only `Y`, `N`, `y` and `n` lower-case to `y` or `n`.
- Confirm.AnswerForms: `str.lower()` is modelled on ASCII letters only. No other character lower-cases to `y` or `n`, so the answers accepted are the same.
- PyText.ParseInt: there is no limit on length. Python 3.11 and later, and the 2022 security releases of 3.7-3.10, make `int()` raise ValueError for more than 4300 digits. `_get_log` would then return None where the model accepts the line. Which Python runs the logger is not stated, so the model follows the unlimited behaviour.
- PyText.ZeroPad: `'%0Nd'` is modelled only for numbers below 10^N. Those are the only values it receives here: years, months, days, hours and minutes.
- LogIds.LogId: requires a non-negative book id. Book ids come from `_get_id` and lie in 100..999. A negative id would put a `-` in the concatenated string.
- Rows.StoredRowAligned: states only the date and time columns of a stored row. The remaining columns follow from Rows.LogRowAligned under the same conditions.
- `settings.py` holds only constants, and `logger.py` does not use them.
