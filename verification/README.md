# sex_stats: the parsing and bucketing layer, in Dafny

`sex_stats.py` reads a hand-written activity log and plots counts over time.
Each line of the log looks like `2021-05-01*14:30 3 times oral (partner)`.
This project models the text-processing layer under the plots:

- the timestamp recogniser. This is the `Regex` field patterns, the two
  grammars `parse_time_str` tries, the `TimeStamp` tuple of captured strings,
  and `TimeStamp._datetime`;
- `parse_log_line` and its three outcomes:
  - no timestamp gives `None`;
  - a timestamp with no ` <d> time(s) <kind>` suffix raises;
  - both give a `LogLine`;
- the header skip and the line-by-line map of `read_activity_log`;
- the guard in `group_data` that accepts six pandas offset aliases;
- the o'clock function `time_function` returns, computed with exact rationals;
- the extension test that picks the CSV reader or the log reader.

The model uses no regular-expression engine. Each pattern is a small
recogniser over `seq<char>`. It tries the alternatives in the order Python's
backtracking matcher would. Each recogniser is then proved equal to a
declarative description of what it accepts, stated as field values, for
example "a year is two digits, or four digits from 1900 to 2999".

Exceptions are `Failure` values of a `Result`. Python's `None` is the `None` of
an `Option`.

Modules:

- `Wrappers` (wrappers.dfy) holds `Option` and `Result`.
- `Lexical` (lexical.dfy) holds the `\d`/`\w` classes, greedy runs, and
  `int()` of a digit string.
- `TimeStamps` (timestamps.dfy) covers `Regex`, `TimeStamp`, `parse_time_str`
  and `_datetime`.
- `LogLines` (loglines.dfy) covers `LogLine` and `parse_log_line`.
- `ActivityLog` (activity_log.dfy) covers `read_activity_log` and the choice of
  reader.
- `Aggregation` (aggregation.dfy) covers `group_data` and `time_function`.

Facts about the code that a reader might not expect, all of which the model
follows:

- **Two-digit years.** The code has no two-digit-year pivot.
  `int("21")` is 21, and `datetime` receives that.
- **Field ranges.** The patterns accept Month `00`–`12` and Day `00`–`39`.
  Only `datetime(...)` rejects month 0, day 0 or day 32.
- **Lines without a suffix.** A line whose timestamp parses but that has no
  count-and-kind suffix raises. It is not skipped, because the `None` match
  is subscripted. An invalid date raises first, because `datetime(...)` is
  evaluated before the subscript.
- **Python version.** The patterns are built by formatting members of
  `class Regex(str, Enum)` into f-strings. That yields the pattern text only
  on Python 3.8 to 3.10, which the model assumes. From 3.11 on, such members
  format as their names (`Regex.Year`), and no real line would match.
- **Lines without a timestamp.** Such a line yields `None`, which the reader
  passes on into its result rather than dropping.

## Model

| member | source | states |
|---|---|---|
| Lexical.Run | sex_stats.py:25-26 | the greedy extent of a character-class run: every character before it is in the class and the one at it is not |
| Lexical.NatOf | sex_stats.py:41 | `int()` of a digit string, most significant digit first; its bound is `NatOfBound` and `NatOfPadded` shows it undoes zero-padded printing |
| Lexical.NatOfBound | sex_stats.py:41 | `int()` of k digits is below 10^k |
| Lexical.NatOfPadded | sex_stats.py:41 | `int()` of a zero-padded decimal text gives back the number whenever the number fits the width |
| TimeStamps.YearField | sex_stats.py:18 | a year field is found only as 2 or 4 digits followed by the separator |
| TimeStamps.PairField | sex_stats.py:19-20 | a Month or Day field is found only as two characters of its class followed by the separator |
| TimeStamps.HourField | sex_stats.py:21 | an hour field is 1 or 2 digits followed by `:` |
| TimeStamps.MatchClock | sex_stats.py:21-24 | the `Time` recogniser, Second taken greedily; what it accepts is stated by `ClockMatchSound`, `ClockMatchComplete` and `ClockMatchCharacterized` |
| TimeStamps.MatchDayClock | sex_stats.py:56 | the `{Day}\*{Time}` tail of grammar A; what it accepts is stated by `DayClockCharacterized` |
| TimeStamps.MatchYearClock | sex_stats.py:57 | the `{Year} {Time}` tail of grammar B; what it accepts is stated by `YearClockCharacterized` |
| TimeStamps.MatchMonthDayClock | sex_stats.py:56 | the `{Month}-{Day}\*{Time}` tail of grammar A; what it accepts is stated by `MonthDayClockSound` and `MonthDayClockComplete` |
| TimeStamps.MatchMonthYearClock | sex_stats.py:57 | the `{Month}/{Year} {Time}` tail of grammar B; what it accepts is stated by `MonthYearClockSound` and `MonthYearClockComplete` |
| TimeStamps.MatchIso | sex_stats.py:56 | grammar A anchored at the start; what it accepts is stated by `IsoMatchSound`, `IsoMatchComplete` and `IsoMatchCharacterized` |
| TimeStamps.MatchDmy | sex_stats.py:57 | grammar B anchored at the start; what it accepts is stated by `DmyMatchSound`, `DmyMatchComplete` and `DmyMatchCharacterized` |
| TimeStamps.CenturyYearValue | sex_stats.py:18 | four characters fit `(19\|2\d)\d{2}` exactly when they are digits whose value is 1900 to 2999 |
| TimeStamps.PairValue | sex_stats.py:19-23 | two characters fit the Month, Day or Minute/Second class exactly when they are digits whose value is at most 12, at most 39 or at most 59 |
| TimeStamps.HourValue | sex_stats.py:21 | the Hour pattern accepts exactly one digit, or two digits with value 00 to 23 |
| TimeStamps.YearFieldCharacterized | sex_stats.py:18 | the year recogniser reports length n exactly when the first n characters are a two-digit or 1900–2999 year and the separator follows |
| TimeStamps.PairFieldCharacterized | sex_stats.py:19-20 | the Month and Day recognisers succeed exactly on a value in range followed by the separator; the same is stated for the Minute/Second class, which `MatchClock` reads without a separator |
| TimeStamps.HourFieldCharacterized | sex_stats.py:21 | the Hour recogniser succeeds exactly on an hour 0–23 in one or two digits followed by `:` |
| TimeStamps.ClockMatchCharacterized | sex_stats.py:21-24 | `Time` captures (hour, minute, second) exactly when the text starts with them, with Second absent only if no `:SS` follows |
| TimeStamps.DayClockCharacterized | sex_stats.py:56 | the `{Day}\*{Time}` tail matches exactly when the text starts with a valid day, `*` and a valid time |
| TimeStamps.YearClockCharacterized | sex_stats.py:57 | the `{Year} {Time}` tail matches exactly when the text starts with a valid year, a space and a valid time |
| TimeStamps.MonthDayClockSound | sex_stats.py:56 | what the `{Month}-{Day}\*{Time}` tail captures is a month 00–12, a day 00–39 and a valid clock, written at the front of the text |
| TimeStamps.MonthDayClockComplete | sex_stats.py:56 | a valid month, day and clock written as `MM-DD*H:MM[:SS]` at the front of the text are captured, the Second included whenever `:SS` follows |
| TimeStamps.MonthYearClockSound | sex_stats.py:57 | what the `{Month}/{Year} {Time}` tail captures is a month 00–12, a two-digit or 1900–2999 year and a valid clock, written at the front of the text |
| TimeStamps.MonthYearClockComplete | sex_stats.py:57 | a valid month, year and clock written as `MM/YYYY H:MM[:SS]` at the front of the text are captured, the Second included whenever `:SS` follows |
| TimeStamps.ClockMatchSound | sex_stats.py:21-24 | whatever `Time` captures is a valid hour, minute and optional second, written at the front of the text |
| TimeStamps.ClockMatchComplete | sex_stats.py:21-24 | a valid clock written at the front of the text is captured, the Second included whenever `:SS` follows |
| TimeStamps.IsoMatchSound | sex_stats.py:56 | a stamp grammar A returns is well formed and its `Y-M-D*H:MM[:SS]` text leads the string |
| TimeStamps.IsoMatchComplete | sex_stats.py:56 | a string led by a well-formed stamp's grammar-A text yields that stamp |
| TimeStamps.DmyMatchSound | sex_stats.py:57 | a stamp grammar B returns is well formed and its `D/M/Y H:MM[:SS]` text leads the string |
| TimeStamps.DmyMatchComplete | sex_stats.py:57 | a string led by a well-formed stamp's grammar-B text yields that stamp |
| TimeStamps.IsoMatchCharacterized | sex_stats.py:56 | grammar A returns a stamp exactly when the string starts with that stamp's `Y-M-D*H:MM[:SS]` text, with the greedy Second |
| TimeStamps.DmyMatchCharacterized | sex_stats.py:57 | grammar B returns a stamp exactly when the string starts with that stamp's `D/M/Y H:MM[:SS]` text |
| TimeStamps.ParseTimeStr | sex_stats.py:52-62 | every stamp returned has fields in their lexical ranges and is the leading text of the string in one of the two grammars |
| TimeStamps.GrammarsExclusive | sex_stats.py:55-58 | no string matches both grammars |
| TimeStamps.ParseOrderIrrelevant | sex_stats.py:55-61 | the order in which the set of grammars is iterated does not change the result |
| TimeStamps.ParseTimeStrCharacterized | sex_stats.py:52-62 | `parse_time_str` returns a stamp exactly when the string begins with that stamp's text in grammar A or B, whatever follows |
| TimeStamps.TrailingTextIgnored | sex_stats.py:56-61 | text appended after a complete `H:MM:SS` never changes the parsed stamp |
| TimeStamps.ToDateTime | sex_stats.py:35-41 | every field is converted as written, a missing Second becomes 0, and the conversion fails with a ValueError exactly when the year is 0, the month is 0, or the day is outside the month |
| TimeStamps.ValidDateTime | sex_stats.py:41 | the range check of `datetime(...)`: year 1–9999, month 1–12, day within the Gregorian month, hour, minute and second in range; `ToDateTime` raises exactly when it fails |
| TimeStamps.SecondValue | sex_stats.py:41 | `int(_) if _ else 0` for the Second group: an absent Second becomes 0; its effect is stated by `ToDateTime` |
| TimeStamps.DateTimeRoundTrip | sex_stats.py:52-62 | an instant written in either grammar with a four-digit year parses back to its own stamp and converts back to the same instant |
| TimeStamps.StampOfFields | sex_stats.py:35-41 | every valid instant in the years 1900 to 2999 has a well-formed stamp, with or without seconds, that converts back to it |
| TimeStamps.StampTextsParse | sex_stats.py:52-62 | a well-formed stamp's text in either grammar parses back to that stamp |
| TimeStamps.NoYearPivot | sex_stats.py:41 | year "21" becomes year 21 and year "00" raises |
| TimeStamps.MonthZeroRejected | sex_stats.py:41 | month `00` passes the Month pattern but raises in `datetime` |
| TimeStamps.DayZeroRejected | sex_stats.py:41 | day `00` passes the Day pattern but raises in `datetime` |
| TimeStamps.ThirtyFirstFebruaryRejected | sex_stats.py:41 | 31 February passes the patterns but raises in `datetime` |
| TimeStamps.LeapDay2000 | sex_stats.py:41 | 29 February 2000 is accepted, since 2000 is a leap year under the Gregorian 400-year rule |
| TimeStamps.NoLeapDay1900 | sex_stats.py:41 | 29 February 1900 raises, since 1900 is not a leap year |
| LogLines.MatchQualifier | sex_stats.py:26 | the optional ` (word)` group captures a word closed by `)` at the front of the text; `QualifierOfText` shows it is taken whenever such a group stands there |
| LogLines.MatchKind | sex_stats.py:26 | the Kind capture is the whole greedy `\w+` run at the front of the text, followed by the ` (word)` group whenever one comes next; it fails exactly when no word character comes first |
| LogLines.MatchSuffixAt | sex_stats.py:25-26 | a suffix found at a position starts with ` <digit> time(s) ` followed by the kind text |
| LogLines.ScanBack | sex_stats.py:68 | the backtracking of `.+`: the rightmost position, down to 1, at which the suffix reader succeeds, or none exactly when it fails at every position |
| LogLines.MatchLine | sex_stats.py:68-71 | the suffix used is the rightmost one on the first physical line; no match means no position there has a suffix |
| LogLines.Assemble | sex_stats.py:70-73 | `None` exactly when no timestamp was found; an invalid date raises the ValueError whether or not a suffix was found, a valid date without a suffix raises the subscript error, and a record takes the count and the kind from the suffix |
| LogLines.ParseLogLine | sex_stats.py:65-73 | `None` exactly when there is no leading timestamp; an invalid date raises the ValueError, a valid date with no suffix raises the subscript error, and a record carries the converted stamp, the one-digit count and the verbatim kind of the rightmost suffix |
| LogLines.TimeOrTimes | sex_stats.py:25 | `time` and `times` are read alike |
| LogLines.RepeatIsOneDigit | sex_stats.py:25 | a count is one digit preceded and followed by a space |
| LogLines.QualifierOfText | sex_stats.py:26 | whenever ` (word)` stands at the front, the group captures that word, whatever follows the `)` |
| LogLines.MatchKindOfText | sex_stats.py:26 | a written kind is read back verbatim whenever what follows cannot extend it: anything after a qualified kind, and after a bare word the end of the text or a non-word character that does not open a ` (word)` group |
| LogLines.MatchSuffixOfText | sex_stats.py:25-26 | a written suffix is read back exactly, under the same condition on what follows its kind |
| LogLines.OnlySuffixAtFront | sex_stats.py:68 | no second suffix starts inside a written suffix |
| LogLines.NoSuffixWithoutCount | sex_stats.py:25 | a suffix can start only where a space, a digit and a space stand |
| LogLines.MatchLineAt | sex_stats.py:68-71 | if a suffix starts at some position and none starts later on the first line, the line match returns that suffix at that position |
| LogLines.MatchLineAfterStamp | sex_stats.py:68-71 | after a newline-free prefix, the written suffix is the one the line match finds, whatever follows it, provided nothing later on the first line is another suffix |
| LogLines.LogLineRoundTrip | sex_stats.py:65-73 | a line written as a valid timestamp in either grammar plus ` <d> time(s) <kind>`, followed by any text that neither extends the kind nor holds a later suffix on the first line, parses to the record it was written from, the kind verbatim |
| LogLines.LogLineRoundTripAtLineEnd | sex_stats.py:65-73 | a line that ends right after the kind, with or without its newline, always parses to the record it was written from |
| LogLines.TwoDigitCountRaises | sex_stats.py:65-73 | a valid timestamp in either grammar followed by ` 12 times <kind>`, for any bare or qualified kind, with or without the line's newline, has no suffix, so parsing raises the missing-suffix error |
| ActivityLog.SliceFrom | sex_stats.py:80 | `lines[header:]` is the suffix of the list of length `len - header`; it is empty past the end, and a negative header keeps the last lines |
| ActivityLog.MapUntilFailure | sex_stats.py:80 | mapping a raising function in order: success exactly when every element succeeds, element by element, and otherwise the error of the first element that fails |
| ActivityLog.ParseLines | sex_stats.py:80 | one result per line, in order, each the line's parse; it raises exactly when some line raises, with the first such line's error |
| ActivityLog.ReadActivityLog | sex_stats.py:76-80 | the result is the parse of `lines[header:]` under Python's slice rules: it succeeds exactly when every line of that slice parses, the k-th result is the parse of the k-th line of the slice, an empty file or a header past the end gives an empty result, and a failure comes from one of the lines after the header |
| ActivityLog.HeaderNeverParsed | sex_stats.py:76-80 | the header lines' contents never affect the result |
| ActivityLog.LastDotField | sex_stats.py:244 | `rsplit('.', 1)[-1]` is the dot-free tail of the path, preceded by a dot unless it is the whole path |
| ActivityLog.ReaderFor | sex_stats.py:244-247 | the dispatch on the last dot field of the path; what it chooses is stated by `CsvRouting` |
| ActivityLog.CsvRouting | sex_stats.py:244-247 | the CSV reader is chosen exactly for a path ending in `.csv` or equal to `csv`; the test is case-sensitive |
| Aggregation.GroupData | sex_stats.py:101-106 | a period is returned exactly for the six listed aliases, and it is the period of that alias; any other alias gives `None`; the alias defaults to `M` |
| Aggregation.GroupDataRoundTrip | sex_stats.py:104-106 | every period's alias is accepted and leads back to that period |
| Aggregation.StepsPerHour | sex_stats.py:142-149 | the hour is divided into whole steps up to 50 records, halves up to 100, quarters up to 200, and tenths beyond |
| Aggregation.StepsPerHourMonotone | sex_stats.py:142-149 | more records never give a coarser division of the hour, and each change of division at least halves the step |
| Aggregation.RoundHalfEven | sex_stats.py:143-147 | Python's `round` of a rational gives the nearest integer, and the even one at a tie |
| Aggregation.RoundHalfEvenUnique | sex_stats.py:143-147 | that nearest-and-even property determines the result |
| Aggregation.TenthsOfHour | sex_stats.py:149 | `round(minute/60, 1)` is the nearest tenth; at the ties 6j+3 it rounds up exactly for minutes 3, 27, 33, 39 and 45 |
| Aggregation.TimeOfDay | sex_stats.py:133-152 | the result is hour + steps/perHour, with perHour chosen by the record count as 1, 2, 4 or 10 and steps the nearest step to the minute (ties as Python breaks them), never past the next hour |
| Aggregation.TimeOfDayIsHalfEven | sex_stats.py:143-148 | for whole, half and quarter hours the step is exactly the half-even rounding of the minute's share |
| Aggregation.TimeOfDayMonotone | sex_stats.py:141-151 | a later minute in the same hour never gets an earlier step |
| Aggregation.TimeOfDayWithinHour | sex_stats.py:141-151 | the result reaches hour + 1 only for minutes in the last half step |

## Left out

- Plotting is left out: `plot_freq_bar`, `plot_density`, `plot_day_hour`, `plot_all` and the `seaborn` settings only render.
- pandas is left out:
  - the `DataFrame` construction, and what it does with the `None` rows that lines without a timestamp produce;
  - `to_datetime`, including its range limits for years such as 21;
  - `resample`, `value_counts` and KDE.
- The model's `DateTime` is Python's `datetime` validity check only.
- `read_activity_whealth` is left out. It is a `read_csv` call plus a column drop and rename, and it sets Kind to `'Unknown'` on every row (sex_stats.py:96). CSV decoding is not modelled.
- File I/O and the command line are left out: `open`, `readlines`, `argparse` in `cli_parsed`, and the `__main__` dispatch beyond the extension test. The model takes the list of lines directly.
- Python 3.11 and later are left out. There, `f'{Regex.Year}'` formats as `Regex.Year` instead of the pattern, so `parse_time_str` returns `None` on every real line. The model follows the pattern text, as on Python 3.8 to 3.10.
- `\d` and `\w` are the ASCII digits and the ASCII word characters. Python's Unicode extensions of both classes are not modelled.
- TimeStamps.ToDateTime requires its stamp to be well formed, because only stamps produced by `parse_time_str` reach it.
- Aggregation.TimeOfDay returns the exact rational hour + steps/perHour. The binary64 sum `x.hour + step` the source returns is not modelled.
- Aggregation.TenthTieRoundsUp fixes the tie behaviour of `round(minute / 60, 1)` from the binary64 values of minute/60 for the ten tie minutes. Floating point in general is not modelled.
