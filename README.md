# Kobe bid scraper — a Dafny model of its own logic

The repository scrapes the City of Kobe's published bid results
(入札結果). `kobe_bid_scraper.py` does three things:

- It searches the results list for a date range, over plain HTTP or through a browser.
- It reads each bid's detail page.
- It saves the bids to CSV, Excel or a Google Sheet, without duplicating bids already saved.

`scraping_auto.py` cuts a longer period into windows of at most one calendar
month and runs a scraper once per window.

The network, the browser and the files are outside this model. It covers the
deterministic rules applied around them:

- the date arguments;
- the URL inside a `window.open('…')` handler;
- absolute links;
- the rows of a results table that become bids;
- the label → value table of a detail page and its merge into the bid;
- the required fields whose absence triggers a second fetch;
- de-duplication on the key (工事名, 開札日時);
- the eight-column projection, and the CSV file as written and as read back;
- the rows appended to the sheet;
- the month arithmetic and the window loop of `scraping_auto.py`.

The model has eight modules, one file each:

| module | models |
|---|---|
| `Base` (`base.dfy`) | Option/Result; Python's `str.strip`, `startswith` and decimal digits |
| `BidRecord` (`bid_record.dfy`) | a bid as a map from field name to text; the field names and the eight columns |
| `Calendar` (`calendar.dfy`) | proleptic Gregorian dates; day numbers as `date.toordinal`; `%Y-%m-%d` formatting |
| `KobeDates` (`kobe_dates.dfy`) | `validate_date` and the start/end check of `main` |
| `KobeLinks` (`kobe_links.dfy`) | `get_onclick_url`, link absolutisation, the results-row loops |
| `KobeDetails` (`kobe_details.dfy`) | the detail table, the label mapping, `missing_fields`, the detail loop of `main` |
| `KobeStore` (`kobe_store.dfy`) | `save_to_csv`'s de-duplication, projection and file; `save_to_gsheet`'s rows and header step |
| `ScrapingAuto` (`scraping_auto.dfy`) | `parse_date`, `add_month`, the window loop of `main` |

Where the code and its documentation differ, the model follows the code:

- **`validate_date` is looser than its message says.** The message asks for
  `YYYY-MM-DD`, but `datetime.strptime(s, "%Y-%m-%d")` also accepts a
  one-digit month or day ("2025-4-1"). It also accepts a day padded with a
  blank ("2025-04- 1"). `KobeDates.ValidateDate` follows the
  `strptime` patterns for `%Y`, `%m` and `%d`. `KobeDates.ValidateDateSpellings`
  lists exactly what it accepts. Among ten-character arguments without
  blanks, that is the canonical spellings of real dates.
- **`add_month` can fail.** In December of year 9999 it raises, because
  `datetime.date` cannot represent year 10000. `main` does not catch that
  error. The model returns None there, and the window loop then ends as
  "crashed" after the windows it has already run.
- **A huge date part is not a format error.** `parse_date` passes the three
  integers to `datetime.date`, which converts them to C ints and raises
  OverflowError for a part above 2147483647 ("2024-1-2147483648"). `main`
  catches only ValueError, so such an argument ends the program uncaught
  instead of printing the format message. `ScrapingAuto.ParseDate` gives
  `IntOverflow` there, and `ScrapingAuto.RunMonthly` the outcome `Overflowed`.
  This holds for parts of at most 4300 digits: `int()` itself refuses a
  longer run with a ValueError (CPython's default limit on the digits it
  converts), so such a part is a format error again.
- **`int()` skips fewer blanks than `str.strip()`.** Around its digits
  `int()` skips tab, line feed, vertical tab, form feed, carriage return,
  space and the non-ASCII blanks, but not the ASCII separators
  U+001C..U+001F that `str.isspace()` counts as blanks. A part starting with
  one of them is a format error (`ScrapingAuto.ParseDateSeparatorFirst`).
- **An existing but empty CSV file gets no header on append.** When appending
  to a file that exists but is empty, `save_to_csv` writes no header, so the
  first appended line would be read back as a header. The read-back lemmas
  (`KobeStore.SavedRecords`, `KobeStore.SavedIdempotent`) therefore assume,
  when appending, a file this module could have written: absent, or headed
  by the columns. Overwriting (`append` false) assumes nothing of the file.
- **The browser search finds no bids.** `extract_link_from_cell` uses the
  name `By`, but `By` is bound only as a local of `setup_selenium`
  (kobe_bid_scraper.py:91, 112) and of `search_bids_with_selenium` (line
  372), never at module level. So the function raises NameError at line
  352, and its bare `except` returns None for every cell. Every row is then
  skipped (lines 437-438), and `search_bids_with_selenium` returns no bids
  on any input. In the running program, `get_onclick_url` and the link
  absolutisation of lines 440-441 are never reached on that path.
  `KobeLinks.BrowserResultsWithoutLinks` states this outcome: when no row
  has a link, the browser search returns nothing. `KobeLinks.SearchWithBrowser`
  also covers the search as evidently intended, for rows that do carry a
  link.

## Model

| member | source | states |
|---|---|---|
| Base.Strip | kobe_bid_scraper.py:312-315 | `str.strip()` returns the slice of its argument left after removing blanks at both ends. The blanks are Python's `isspace` set, and what is left neither starts nor ends with a blank. |
| Base.StripEmpty | kobe_bid_scraper.py:452 | `v.strip()` is empty (falsy) exactly when `v` consists of blanks only. |
| Calendar.DaysInMonth | scraping_auto.py:26-29 | A month has 28..31 days, with 29 exactly for February of a leap year and 28 exactly for February of a common year. |
| Calendar.DayNumberOrder | kobe_bid_scraper.py:817 | Comparing dates (`>`, `<`, `>=`) is comparing their day numbers, and equal day numbers mean equal dates. |
| Calendar.DaysBeforeYearClosedForm | kobe_bid_scraper.py:822 | Day numbers, and so `(end - start).days`, agree with the closed form `365*(y-1) + (y-1)//4 - (y-1)//100 + (y-1)//400` of `datetime`. |
| Calendar.Iso | scraping_auto.py:62-63 | `strftime("%Y-%m-%d")` gives ten characters: four digits, a dash, two digits, a dash, two digits. |
| Calendar.IsoFields | scraping_auto.py:62-63 | The three digit groups of the formatted date read back as its year, month and day. |
| KobeDates.ValidateDate | kobe_bid_scraper.py:57-72 | A date is returned only for a real calendar date. Every failure is the single ValueError carrying the argument. |
| KobeDates.ValidateDateSpellings | kobe_bid_scraper.py:57-72 | For every argument and date: the argument is accepted as that date exactly when the date is real and the argument is one of its spellings. A spelling is four year digits, a dash, the month as two digits (or one below ten), a dash, and the day as two digits (or, below ten, one digit alone or after a blank). |
| KobeDates.ValidateIso | kobe_bid_scraper.py:57-72 | Every real date written as `YYYY-MM-DD` is accepted, as itself. |
| KobeDates.ValidateTenChars | kobe_bid_scraper.py:57-72 | A ten-character argument without blanks is accepted only if it is the canonical `YYYY-MM-DD` spelling of the date returned. |
| KobeDates.ValidateDateExample | test_kobe_bid_scraper.py:48-59 | "2025-04-01" gives the date 2025-04-01. |
| KobeDates.ValidateDateWrongSeparator | test_kobe_bid_scraper.py:48-59 | "2025/04/01" raises ValueError. |
| KobeDates.ValidateDateBadMonth | test_kobe_bid_scraper.py:48-59 | "2025-13-01" raises ValueError. |
| KobeDates.ValidateDateOneDigitFields | kobe_bid_scraper.py:72 | "2025-4-1" is accepted as 2025-04-01. |
| KobeDates.ValidateDateBlankPaddedDay | kobe_bid_scraper.py:72 | "2025-04- 1" is accepted as 2025-04-01. |
| KobeDates.ValidateDateNoSuchDay | kobe_bid_scraper.py:72 | Well-formed text naming no date ("2025-02-30", year 0) raises. |
| KobeDates.CheckDates | kobe_bid_scraper.py:813-828 | The start argument is validated first, and its ValueError wins; then the end argument. A start after the end is an error exactly when both dates parse and start > end; otherwise the check succeeds. The range is `(end - start).days + 1` (day numbers as `toordinal`), so at least 1, and the warning is given exactly when it exceeds 31 days. |
| KobeDates.RangeLength | kobe_bid_scraper.py:822 | The range is one day exactly when start equals end. Within one month it is end.day - start.day + 1. |
| KobeLinks.MatchAtMeaning | kobe_bid_scraper.py:341 | The pattern matches at a position with group `u` exactly when the text reads `window.open('u')` there, `u` being non-empty and free of single quotes. |
| KobeLinks.SearchFromFound | kobe_bid_scraper.py:341-344 | `re.search` returns the group of the leftmost match: the pattern matches at the position found and at no earlier one. |
| KobeLinks.SearchFromNone | kobe_bid_scraper.py:341-344 | `re.search` returns None only when the pattern matches at no position. |
| KobeLinks.OnclickUrlMeaning | kobe_bid_scraper.py:337-346 | The URL returned is non-empty, quote-free and written as `window.open('URL')` in the handler. None is returned exactly when no such call appears. |
| KobeLinks.OnclickUrlExample | kobe_bid_scraper.py:340-341 | `window.open('resultk.php?xxx')` yields `resultk.php?xxx`. |
| KobeLinks.Absolute | kobe_bid_scraper.py:307-308 | The link always starts with "http", and the original link is kept intact at its end. |
| KobeLinks.AbsoluteIdempotent | kobe_bid_scraper.py:440-441 | A link is unchanged exactly when it starts with "http". Otherwise it gets exactly the site root in front, and applying the rule twice equals applying it once. |
| KobeLinks.BasicRecord | kobe_bid_scraper.py:311-317 | A basic bid has exactly the fields 工事名, 開札日時, 入札方法, 案件番号 and link. |
| KobeLinks.CollectedWellFormed | kobe_bid_scraper.py:289-319 | Every collected bid has the five basic fields and an absolute link. Through the browser, none of its values is blank. |
| KobeLinks.BrowserRowKept | kobe_bid_scraper.py:444-453 | Through the browser, a row with four cells and a link is kept exactly when none of its first four cells is blank. |
| KobeLinks.CollectResults | kobe_bid_scraper.py:289-319 | The row loop skips the header row and appends, in order, the bid of every row that has enough cells and a non-empty link. |
| KobeLinks.SearchWithRequests | kobe_bid_scraper.py:282-329 | No results table, or a link to a next page, gives None (switch to the browser). Otherwise the collected bids are returned. |
| KobeLinks.SearchWithBrowser | kobe_bid_scraper.py:427-458 | The bids of all pages are collected in page order, each page without its header row. When no row has a link, which is every input as the code is written, there are no bids. |
| KobeLinks.BrowserResultsWithoutLinks | kobe_bid_scraper.py:349-366 | If no row of any page carries a link, the browser search returns no bids. `extract_link_from_cell` as written returns None for every cell, because `By` is unbound at line 352 and the bare `except` swallows the NameError. |
| KobeLinks.BrowserResultsWellFormed | kobe_bid_scraper.py:429-458 | Every bid the browser search returns, over all pages, has the five basic fields, an absolute link and no blank value. |
| KobeDetails.BuildDetails | kobe_bid_scraper.py:520-528 | The loop builds the details table of its rows. |
| KobeDetails.DetailsOfKeys | kobe_bid_scraper.py:522-528 | The labels of the table are exactly the stripped first cells of rows with at least two cells. |
| KobeDetails.DetailsOfLastWins | kobe_bid_scraper.py:528 | A label holds the stripped second cell of the last row that carries it. |
| KobeDetails.MappingColumns | kobe_bid_scraper.py:535-544 | The eight mapping targets are the output columns, in order, and each column is filled from the label beside it. |
| KobeDetails.MergedFields | kobe_bid_scraper.py:532-550 | After the merge all eight columns exist. A column takes the page value if its label is present, else keeps the bid's own value, else is "". Fields outside the mapping are unchanged. |
| KobeDetails.MergedIdempotent | kobe_bid_scraper.py:546-550 | Merging the same page again changes nothing. |
| KobeDetails.MergeDetails | kobe_bid_scraper.py:532-550 | The in-place mapping loop over a copy of the bid builds exactly the merged bid. The input bid is a value and is left as it was. |
| KobeDetails.FetchDetails | kobe_bid_scraper.py:503-556 | The fetch builds the details dict and runs the mapping loop, giving the merged bid the specification function `Fetched` describes. |
| KobeDetails.FetchedColumns | kobe_bid_scraper.py:503-556 | Without a detail table, or on any failure, the bid comes back unchanged. With a table, all eight columns are present. |
| KobeDetails.MissingMeaning | kobe_bid_scraper.py:857-858 | The missing fields are exactly the required fields that are absent or empty, listed in required order. None are missing exactly when all eight are present and non-empty. |
| KobeDetails.MissingAfterTable | kobe_bid_scraper.py:857-858 | After a detail table was read, only empty values can be missing. |
| KobeDetails.RefetchWhenMissing | kobe_bid_scraper.py:853-863 | The browser re-fetch of the original bid is used exactly when some required field is missing after the first fetch. Otherwise the first result is kept, and all its columns are filled. |
| KobeDetails.FetchAllDetails | kobe_bid_scraper.py:849-865 | There is one detailed bid per bid, in order, each the first fetch or, when fields are missing, the re-fetch. |
| KobeStore.NewRowsMeaning | kobe_bid_scraper.py:650-651 | The rows kept are exactly the input rows whose key is not stored yet, and they form a subsequence of the input (original order). |
| KobeStore.NewRowsMultiset | kobe_bid_scraper.py:650-651 | A row with a new key is kept as many times as it occurs in the data, and a row with a stored key is never kept. |
| KobeStore.NewRowsNoKeys | kobe_bid_scraper.py:651 | With nothing stored, every row is kept. |
| KobeStore.NewRowsDisjoint | kobe_bid_scraper.py:651 | Rows whose keys are all new are all kept. |
| KobeStore.NewRowsCovered | kobe_bid_scraper.py:651 | Rows whose keys are all stored are all dropped. |
| KobeStore.ProjectReadBack | kobe_bid_scraper.py:634-669 | A written line read back under the column header has exactly the eight columns, each with the record's value or "", and the same key as the record. |
| KobeStore.SavedShape | kobe_bid_scraper.py:656-669 | The header is written exactly when not appending to an existing file. An append keeps every old line and adds one line per kept row, and every written line has eight fields. |
| KobeStore.SavedRecords | kobe_bid_scraper.py:637-669 | Reading the saved file gives the previously stored records (when appending) followed by the kept rows as written. Overwriting does this for any previous file, appending for an absent or headed one. |
| KobeStore.SavedIdempotent | kobe_bid_scraper.py:650-669 | Appending the same data a second time leaves the file unchanged. |
| KobeStore.SaveScenario | test_kobe_bid_scraper.py:61-102 | A fresh save stores every row. Appending rows with new keys adds all of them, and appending the first rows again adds none (the 2, 3, 3 of the test). |
| KobeStore.SaveCsv | kobe_bid_scraper.py:625-669 | The writing loop produces exactly the saved file. |
| KobeStore.RowsToAdd | kobe_bid_scraper.py:764-773 | The sheet loop produces the projected lines of the rows whose key is not among the sheet's records. |
| KobeStore.SheetSameRuleAsCsv | kobe_bid_scraper.py:764-773 | The sheet gets exactly the lines a CSV append gets over the same stored records. |
| KobeStore.HeaderStep | kobe_bid_scraper.py:753-760 | With records in the sheet, the sheet is unchanged. Without records, the sheet afterwards starts with the header row: an empty grid gets it appended, and an empty sheet with a non-zero grid size, or one whose first row differs, is cleared and given it. A sheet already headed by the columns is left as it is, and the step only ever appends the header or replaces the sheet by it. |
| ScrapingAuto.Split | scraping_auto.py:11 | `str.split('-')` gives at least one part, and no part contains the separator. |
| ScrapingAuto.JoinSplit | scraping_auto.py:11 | Joining the parts with the separator gives back the argument. |
| ScrapingAuto.SplitJoin | scraping_auto.py:11 | Splitting separator-free parts joined by the separator gives back the parts. |
| ScrapingAuto.IntBody | scraping_auto.py:14 | The text `int()` parses is its argument without `int()` blanks at both ends: Python's `isspace` set less U+001C..U+001F. What was removed is blank in that sense, and what is left neither starts nor ends with such a blank. |
| ScrapingAuto.PyIntDigits | scraping_auto.py:14 | `int()` of a string of one to 4300 ASCII digits is the number it denotes. |
| ScrapingAuto.PyIntTooLong | scraping_auto.py:14 | `int()` of more than 4300 ASCII digits is the ValueError. |
| ScrapingAuto.PyIntSeparatorFirst | scraping_auto.py:14 | A text starting with one of U+001C..U+001F is no integer, although `isspace` counts that character as blank. |
| ScrapingAuto.ParseDate | scraping_auto.py:7-15 | Fails with the part-count error exactly when there are not three dash-separated parts. A result is a real date whose fields are the integers of the three parts. |
| ScrapingAuto.ParseDateOverflow | scraping_auto.py:7-15 | For three dash-separated runs of at most 4300 digits, `datetime.date` raises OverflowError exactly when one part exceeds the largest C `int` (2147483647). Otherwise the result is the date of the three values when that date exists, and the ValueError otherwise. |
| ScrapingAuto.ParseDateTooLong | scraping_auto.py:7-15 | Three dash-separated runs of digits, one of them longer than 4300 digits, give the ValueError of `int()`, not an overflow. |
| ScrapingAuto.ParseDateSeparatorFirst | scraping_auto.py:7-15 | An argument starting with U+001C followed by three dash-separated runs of digits gives the ValueError of `int()`. |
| ScrapingAuto.ParseDateIso | scraping_auto.py:7-15 | Every date formatted as `%Y-%m-%d` parses back to itself. |
| ScrapingAuto.ParseDateSlashes | scraping_auto.py:11-13 | "2024/1/1" fails for lack of three parts. |
| ScrapingAuto.ParseDateTwoParts | scraping_auto.py:11-13 | "2024-1" fails for lack of three parts. |
| ScrapingAuto.ParseDateRefusesMonth13 | scraping_auto.py:14-15 | Any argument with month 13 fails. |
| ScrapingAuto.AddMonth | scraping_auto.py:18-30 | Defined exactly below December 9999. The result is a real date strictly later than the input, with a day no larger than the input's. |
| ScrapingAuto.AddMonthCalendar | scraping_auto.py:24-29 | The month is the next one and the year changes only after December. The day is kept unless the next month is shorter, in which case it is that month's last day. |
| ScrapingAuto.AddMonthDistance | scraping_auto.py:18-30 | One month later is 28 to 31 days later. |
| ScrapingAuto.AddMonthExamples | scraping_auto.py:22 | 2024-01-31 → 2024-02-29, 2023-01-31 → 2023-02-28, 2024-12-15 → 2025-01-15, and 9999-12-01 has no successor. |
| ScrapingAuto.WindowArguments | scraping_auto.py:62-63 | The two arguments passed for a window parse back to the window's dates. |
| ScrapingAuto.WindowsFromStep | scraping_auto.py:57-60 | Each step is the window (current, min(add_month(current), end)), its end is later than current and not after end, and the distance to end shrinks (termination). |
| ScrapingAuto.WindowsSteps | scraping_auto.py:57-60 | Every window ends at the earlier of one month after its start and the end date. It is non-empty, spans at most 31 days and never reaches past the end date. |
| ScrapingAuto.WindowsContiguous | scraping_auto.py:57-79 | The first window starts at the start, and each window's end is the next window's start. |
| ScrapingAuto.WindowsReachEnd | scraping_auto.py:57-79 | A completed loop from a date before the end has run at least one window, and its last window ends exactly at the end date. A crashed loop stopped before the end, at a date `add_month` cannot advance. |
| ScrapingAuto.MonthWindows | scraping_auto.py:54-79 | The `while current < end` loop runs exactly the windows of the specification and reports whether it completed. |
| ScrapingAuto.RunMonthly | scraping_auto.py:40-79 | The start is parsed first. A ValueError from the first date that fails gives the format error. An OverflowError from it is not caught, and the run ends there. Otherwise start >= end gives the order error. Otherwise the windows run contiguously from the start, and a completed run ends at the end date. |

## Left out

- HTTP requests, the browser (Selenium), BeautifulSoup, files and Google Sheets: the model takes as inputs what those calls deliver. These inputs are the cells and link of each result row, the detail table's rows or its absence, the lines of the CSV file, and the sheet's records, grid row count and first row.
- `extract_link_from_cell` is not part of this model. As written, it always returns None (see "The browser search finds no bids" above). Had `By` been bound, it would search the first cell's anchors for a link. Its result is the link field of a result row, so both its as-written result (None) and an intended link can be passed in.
- The browser re-fetch of a bid's details reads only `td` cells (kobe_bid_scraper.py:586), and the HTTP fetch reads `th` and `td` cells (line 523). A label in a `th` cell is therefore lost in the re-fetch. The detail rows are an input here, so `KobeDetails.BuildDetails` does not show this difference.
- How `search_bids_with_selenium` finds the result table and the next-page link, and its per-row and per-page exception handling, are not modelled. Exceptions raised inside the `try` of `search_bids_with_requests` (kobe_bid_scraper.py:273-334) are folded into "no results table", which sends the search to the browser. The session's first `s.get` (line 235) is outside that `try`; its failure reaches the handler of `main` (lines 893-898) and ends the program with exit status 1, which is not modelled.
- `main` of kobe_bid_scraper.py is modelled only in parts: the date checks, the detail loop and the saves. The choice between the two searches, the exit when nothing was found, the argument parsing and the summary log are left out.
- `save_to_excel` (pandas), `setup_logger`, `setup_selenium`, `setup_gspread`, `random_sleep`, all logging and printing, and the `subprocess.run` call of scraping_auto.py (a window is recorded instead of run) are left out, as are bid_scraper.py and the analysis scripts analist*.py (floating-point statistics).
- KobeStore.ReadRecords: CSV quoting and escaping, and text encoding, are not modelled; a line is its list of fields. A line shorter than the header gives fields absent from the record, where `csv.DictReader` stores None. A line longer than the header loses its extra fields, which `csv.DictReader` keeps under the None key. The failure to read an existing file, which the source treats as "nothing stored", is not modelled either.
- KobeStore.HeaderStep: gspread's `row_count` (the grid size, not the number of filled rows) is an input, `row_values(1)` is taken to be the sheet's first row (empty for an empty sheet), and `clear`/`append_row` are modelled only as the resulting rows, not as updates of a remote sheet.
- ScrapingAuto.PyInt: `int()` is modelled for ASCII digits with an optional sign and surrounding blanks, under CPython's default limit of 4300 digits. Underscores between digits and non-ASCII decimal digits, which Python also accepts, are not modelled, nor a limit changed through `sys.set_int_max_str_digits` or `PYTHONINTMAXSTRDIGITS`.
- KobeDates.ParseYmd: `\d` in the `strptime` patterns also matches non-ASCII decimal digits, which are not modelled. ASCII case folding does not arise, since the format has no letters.
- Calendar.Iso: `strftime("%Y")` for years below 1000 is platform-dependent; the model pads to four digits.
- The `len(sys.argv) != 3` check of scraping_auto.py is argument plumbing. `RunMonthly` takes the two date arguments directly.
