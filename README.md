# Web-log analyzer, modelled in Dafny

`assignment3.py` downloads a CSV access log, turns each row of three or more
fields into a record (requested path, timestamp, user-agent field) and runs
three analyses on the records: the share of requests for images, the most
popular browser, and a ranking of the hours of the day by number of hits.
`main` stops when the download fails or when parsing yields no record.

This project models that core and proves what each stage promises:

- `text.dfy` (`Text`): cutting text at a separator and joining it back.
- `records.dfy` (`LogRecords`): `process_data`. The loop over rows is the method
  `ProcessData`, proved against the function `ParseContent`. One reader error is
  modelled: a field longer than the reader's default limit of 131072 characters
  stops the parse, and the records collected so far are kept.
- `images.dfy` (`Images`): `Image_Regex` under `re.match` with `IGNORECASE`, the
  image count and the percentage of `image_count`.
- `browsers.dfy` (`Browsers`): `Browser_Regex.search` as the leftmost token, the
  `Counter` of tags and `most_common(1)`.
- `tally.dfy` (`Tallies`): the shared counting table. `Counter` and
  `defaultdict(int)` both keep their keys in first-insertion order, and
  `most_common(1)` returns the first entry with the largest count. The stable
  `sorted(..., reverse=True)` by count is an insertion sort that keeps tied entries
  in table order.
- `timestamps.dfy` (`Timestamps`): `datetime.strptime` with
  `%Y-%m-%d %H:%M:%S`, as a strict parser with its formatter.
- `hours.dfy` (`HourlyHits`): the loop of `hourly_hits` as the method
  `CountHours` over a per-hour map, proved equal to the tally of the parsed hours.
  It is followed by the ranking.
- `pipeline.dfy` (`Pipeline`): the guards of `main` and the order of the stages.
- `scenarios.dfy` (`Scenarios`): a worked example with two requests.

The downloaded text is an input: `Pipeline.Run` takes `None` for a failed
download and `Some(text)` otherwise. Printed and logged text is not modelled.
Each analysis returns a value that says what it would report.

Two behaviours of the code that the model keeps:

- `main` tests only `csv_content is None`, so an empty download is not stopped
  by the first guard. `process_data` returns no records for it and the second
  guard stops the run. `Pipeline.Run` ends with `NoRecords` for `Some("")`.
- `image_count` divides only when `total_requests > 0`, but it runs only on
  non-empty data, so the zero branch cannot be reached from `main`.
  `Images.Percent` keeps the branch, and `Images.ImageReport` returns
  `NoImageData` for empty data.

## Model

| member | source | states |
|---|---|---|
| Text.JoinSplit | assignment3.py:29 | joining the pieces of a split with the separator gives the text back |
| Text.SplitJoin | assignment3.py:29 | splitting a join of separator-free pieces gives the pieces back |
| LogRecords.RowsOf | assignment3.py:29 | one row per line; each row joined with commas is its line, and no field holds a comma, so each row is the comma split of its line |
| LogRecords.FirstOversized | assignment3.py:28-36 | the reader gets through exactly the rows before the first row with a field over the limit |
| LogRecords.ParseContent | assignment3.py:22-37 | the parse as a whole: empty text gives no records and no failure; otherwise it fails exactly when some row has a field over the limit, and it never yields more records than rows |
| LogRecords.ProcessData | assignment3.py:22-37 | empty text gives no records and no failure; the parse fails exactly when some row has an oversized field; the records are those of `ParseContent` |
| LogRecords.KeptSingle | assignment3.py:30-33 | a row of three or more fields gives the record of columns 0, 1 and 2; a shorter row gives nothing |
| LogRecords.KeptAppend | assignment3.py:30-33 | records are made row by row, in row order |
| LogRecords.KeptCount | assignment3.py:30-33 | there is one record per row with at least three fields, so no more records than rows |
| LogRecords.KeptFromWideRows | assignment3.py:30-33 | every record is the projection of some row with at least three fields |
| LogRecords.ParsedCount | assignment3.py:27-37 | with no oversized field the parse does not fail and keeps one record per wide row |
| Images.IsImagePath | assignment3.py:10 | the image pattern under `re.match`: a matching path has at least four characters and a line break at most in its last position |
| Images.ImagePathFromParts | assignment3.py:10 | a stem without line breaks, a dot and jpg, gif or png in any case, optionally followed by one line break, matches the image pattern |
| Images.ImagePathToParts | assignment3.py:10 | every path that matches the image pattern has that shape |
| Images.ImageCount | assignment3.py:46 | the image count is at most the number of records |
| Images.ImageCountPositions | assignment3.py:46 | the image count is the number of record positions whose path matches |
| Images.ImageReport | assignment3.py:39-47 | no data gives no report; otherwise the share has total equal to the record count, and images equal to the number of record positions whose path matches, at most the total |
| Images.Percent | assignment3.py:47 | for a positive total the percentage times the total is 100 times the image count; for total 0 it is 0 |
| Images.PercentBounds | assignment3.py:47 | the percentage lies in 0 to 100, times the total it is 100 times the image count, and it is 0 for total 0 |
| Browsers.TagAtOccurrence | assignment3.py:11 | the alternation at a position yields exactly the token that starts there |
| Browsers.OneTokenPerPosition | assignment3.py:11 | at most one token starts at any position |
| Browsers.FindBrowserLeftmost | assignment3.py:11 | the search yields browser b exactly when b's token starts at some position with no token starting earlier |
| Browsers.FindBrowserNone | assignment3.py:57 | the search yields nothing exactly when no token occurs in the field |
| Browsers.FindBrowser | assignment3.py:56-57 | `search(...).group(1)`: a browser found occurs in the field with no token starting before it; no browser found means no token occurs anywhere in the field |
| Browsers.TagsLength | assignment3.py:56-57 | the tags counted are as many as the records whose field holds a token |
| Browsers.TagsMultiset | assignment3.py:56-57 | each browser is counted once per record tagged with it |
| Browsers.BrowserTallyCounts | assignment3.py:56-57 | the counter's count for each browser is the number of records tagged with it |
| Browsers.BrowserTallyTotal | assignment3.py:56-57 | the counts add up to the number of tagged records, at most the number of records |
| Browsers.BrowserReportOf | assignment3.py:50-63 | `browser_count`'s outcome: "no data" exactly for no records, "no recognisable browser" exactly when no record is tagged, and otherwise a hit count between 1 and the number of tagged records |
| Browsers.MostPopularIsFirstMaximum | assignment3.py:50-63 | the report is "no data" exactly for no records and "no recognisable browser" exactly when nothing is tagged; otherwise the browser has the largest count, at least 1, and beats every tied browser by an earlier first tagged record |
| Tallies.MostCommonIndex | assignment3.py:60 | the entry chosen has the largest count, and every earlier entry has a smaller count |
| Tallies.CountAtMostTotal | assignment3.py:60 | no single count exceeds the sum of all counts |
| Tallies.BumpCountOf | assignment3.py:77 | adding one occurrence raises that key's count by 1 and leaves every other count unchanged |
| Tallies.BumpTotal | assignment3.py:77 | adding one occurrence raises the total by 1 |
| Tallies.BumpShape | assignment3.py:77 | a known key keeps the table's keys in place; a new key is appended with count 1 |
| Tallies.Tally | assignment3.py:56-57 | the counter (and the `defaultdict(int)` of lines 72-77) built by adding the elements in turn; it has no more entries than elements |
| Tallies.TallyCountOf | assignment3.py:56-57 | the count of every key is its number of occurrences in the counted sequence |
| Tallies.TallyTotal | assignment3.py:56-57 | the counts add up to the length of the counted sequence |
| Tallies.TallyListsElements | assignment3.py:56-57 | the keys of the table are exactly the elements counted |
| Tallies.TallyWellFormed | assignment3.py:56-57 | keys are distinct and every count is at least 1 |
| Tallies.TallyFirstSeenOrder | assignment3.py:56-57 | keys appear in the order of their first occurrence |
| Tallies.PresentMembership | assignment3.py:57 | a value is kept exactly when some element holds it |
| Tallies.PresentMultiset | assignment3.py:57 | each value is kept as often as it occurs |
| Tallies.PresentFirstSeen | assignment3.py:57 | filtering out the missing values keeps the order of first occurrences |
| Tallies.InsertSorted | assignment3.py:82 | inserting into a table sorted by descending count keeps it sorted and adds exactly the inserted entry |
| Tallies.SortByCountDesc | assignment3.py:82 | `sorted(..., key=count, reverse=True)` as an insertion sort; the result has as many entries as the table |
| Tallies.SortSorted | assignment3.py:82 | the sorted table is ordered by non-increasing count and is a permutation of the table |
| Tallies.SortStable | assignment3.py:82 | entries with equal counts keep their relative order from the table |
| Timestamps.NumberPad | assignment3.py:76 | reading back a zero-padded number gives the number |
| Timestamps.PadNumber | assignment3.py:76 | zero-padding the value of a digit run to its width gives the run back |
| Timestamps.ParseHour | assignment3.py:76-77 | a parsed hour is below 24 |
| Timestamps.ParseTimestamp | assignment3.py:76 | `strptime` with the fixed format, strict form: a date-time it returns is valid and its fixed format is exactly the text parsed |
| Timestamps.ParseFormat | assignment3.py:76 | every valid date-time in the fixed format parses back to itself |
| Timestamps.FormatParse | assignment3.py:76 | everything the parser accepts is a valid date-time in the fixed format |
| Timestamps.ParseHourExactly | assignment3.py:76-77 | a timestamp yields hour h exactly when it is the fixed format of a valid date-time at hour h |
| HourlyHits.CountHours | assignment3.py:72-80 | the loop's map, listed in insertion order, is the tally of the hours that parse, in record order |
| HourlyHits.CountBump | assignment3.py:77 | a turn with an hour already in the map adds 1 to that hour and keeps the loop invariant |
| HourlyHits.CountInsert | assignment3.py:77 | a turn with a new hour inserts it with count 1 and keeps the loop invariant |
| HourlyHits.CountSkip | assignment3.py:78-80 | a turn whose timestamp does not parse leaves the map unchanged and keeps the loop invariant |
| HourlyHits.ParsedHoursLength | assignment3.py:74-80 | the parsed hours are as many as the records whose timestamp parses |
| HourlyHits.HourTable | assignment3.py:72-80 | hours are distinct and below 24 with counts at least 1; each count is the hour's number of records; the counts add up to the parseable records |
| HourlyHits.HourlyReportOf | assignment3.py:66-85 | `hourly_hits`' outcome: no ranking exactly for no records, otherwise the sorted hour table, with at most as many hours as records whose timestamp parses |
| HourlyHits.ReportHourlyHits | assignment3.py:66-85 | no data gives no ranking, and any data gives the sorted table of hours |
| HourlyHits.RankingOrder | assignment3.py:82-85 | the ranking holds the hour table's entries by non-increasing count, and tied hours follow the order of the first record at each hour |
| Pipeline.Run | assignment3.py:87-100 | a failed download stops the run; no records stops it (including for empty text); otherwise all three analyses run on all the records |
| Scenarios.SampleImages | assignment3.py:39-47 | for the two sample requests, one is an image: 50 percent |
| Scenarios.MozillaFirefox | assignment3.py:56-57 | the search skips the text before the token and finds Firefox |
| Scenarios.SampleBrowsers | assignment3.py:50-63 | Firefox and Chrome tie at one hit each, and Firefox, seen first, is reported |
| Scenarios.SampleTimestamp | assignment3.py:76 | the sample timestamp parses to hour 10 |
| Scenarios.SampleHours | assignment3.py:66-85 | both sample requests fall in hour 10, ranked with 2 hits |

## Left out

- `download_data` (assignment3.py:13-20): network I/O and UTF-8 decoding. Its result is the `Option<string>` given to `Pipeline.Run`.
- The command line (assignment3.py:102-107), and all printed and logged text: messages, `{percent:.2f}`, `{hour:02d}`.
- LogRecords.RowsOf: splits only at `'\n'` and at every `','`. CSV quoting, escaped separators and the other line breaks of `splitlines` (`\r`, `\r\n`, `\x0b`, ...) are not modelled. A carriage return stays at the end of the last field.
- LogRecords.ProcessData: the only reader error modelled is a field over the size limit. Errors in strict CSV dialects and NUL characters are not modelled.
- Images.Percent: exact real arithmetic instead of floating-point division and rounding to two decimals.
- Timestamps.ParseTimestamp: `strptime` also accepts single-digit fields, any run of whitespace for the space, and non-ASCII digits. The model accepts only the zero-padded 19-character form, so it rejects some timestamps that Python parses.
