# SmartExpenseApp core in Dafny

SmartExpenseApp is a personal expense tracker: a Kivy screen in front of a
single SQLite table. This project models the logic behind the screen and
proves properties of it:

- **The input checks of `ExpenseScreen.add_expense`** (`Validation`, with
  `Text`, `Calendar`, `Decimals` and `Digits` underneath).
  - The four input texts are stripped the way Python's `str.strip` does it.
  - Four rules then run in order, and the first broken rule is the error:
    a missing field, a bad date, an amount that is not a number, an amount
    that is not above zero.
  - Dates are read as `datetime.strptime(text, "%Y-%m-%d")` reads them. That
    includes its real-calendar check (month lengths, leap years, no year 0)
    and its leniency: one-digit months and days, and a space-padded day.
  - Amounts are exact decimal literals rather than binary floats.
- **The `expenses` table behind `DatabaseManager`** (`ExpenseDb`).
  - It is a class holding the rows, the `AUTOINCREMENT` counter and,
    as ghost state, every id ever handed out.
  - `_init_db` only creates what is missing.
  - `insert_expense` hands out ids that are never reused.
  - `fetch_all` returns the rows ordered by `date DESC, id DESC` under
    SQLite's code-point text order.
  - `delete_expense` reports whether a row went.
- **The rows `export_csv` writes** (`Export`): a header, then one row per
  fetched record with an export date appended. An empty table is refused.
- **The screen itself** (`Screen`): `initialize_app`, `add_expense`,
  `refresh_list` with the red/green amount colour of `ExpenseRow`,
  `ExpenseRow.delete_expense` and `export_csv`.
  - They run against one store.
  - They keep the invariant that every stored row passed the input checks.

The export reads the clock once per data row (main.py:410), not once per
export, so an export that runs past midnight carries two different dates.
The clock is a function from the reading's number to a date text, and
`Export.UniformExportDate` shows that the column is uniform when every
reading falls on the same day.

Stored dates are compared as text. The date check accepts unpadded months
and days, so a date typed as `2024-9-30` is listed above `2024-10-01`.
`Calendar.UnpaddedTextOrderIsNotChronological` exhibits this. For the
zero-padded form `Calendar.CanonicalTextOrderIsChronological` proves that
text order and calendar order agree.

## Model

| member | source | states |
|---|---|---|
| Text.Strip | main.py:303-306 | The stripped text has no whitespace (Python's `str.isspace` set) at either end, and it is empty exactly when the input is all whitespace |
| Text.StripSlice | main.py:303-306 | The stripped text is the slice of the input that starts where the leading whitespace ends, with only whitespace before and after it |
| Text.StripIsSlice | main.py:303-306 | Stripping removes only whitespace, and only from the two ends: the result is a contiguous slice of the input |
| Text.StripIdempotent | main.py:303-306 | Stripping twice is stripping once |
| Text.StripPadded | main.py:303-306 | Whitespace typed around a stripped text is removed, and nothing else is |
| Text.LexLessTotal | database.py:79 | SQLite's BINARY text order ranks any two different texts one way or the other |
| Text.LexLessTransitive | database.py:79 | The text order is transitive |
| Text.LexLessIrreflexive | database.py:79 | No text sorts before itself |
| Text.LexLessConcat | database.py:79 | Texts with equal-length leading parts compare by those parts first, then by the rest |
| Digits.PaddedValueOf | main.py:315 | A digit field reads back to the same zero-padded text |
| Digits.ValueOfPadded | main.py:315 | A number written zero-padded to a width it fits reads back as that number |
| Digits.PaddedOrder | database.py:79 | Zero-padded numbers of one width sort as text exactly as they sort as numbers |
| Calendar.DaysInMonth | main.py:315 | Months have 28 to 31 days, and 29 exactly for February of a leap year |
| Calendar.MatchMonth | main.py:315 | The `%m` alternatives `1[0-2]`, `0[1-9]`, `[1-9]`, tried in order on the text's start: a match is a month 1 to 12 and uses one or two characters of the text |
| Calendar.MatchDay | main.py:315 | The `%d` alternatives `3[01]`, `[12][0-9]`, `0[1-9]`, `[1-9]`, ` [1-9]`, tried in order: a match is a day 1 to 31 and uses one or two characters of the text |
| Calendar.MatchFormat | main.py:315 | The `%Y-%m-%d` pattern on the whole text (four-digit year, hyphens, no unconverted data left): a match has year 0 to 9999, month 1 to 12 and day 1 to 31, not yet checked against the calendar |
| Calendar.ParseDate | main.py:314-318 | Whatever the date check accepts is a real calendar date: year 1 to 9999, month 1 to 12, day within that month |
| Calendar.ParseFormatDate | main.py:314-318 | Every real date written as `YYYY-MM-DD` (the form's default) passes the date check and reads back as itself |
| Calendar.AcceptedCanonicalText | main.py:314-318 | A text shaped like `YYYY-MM-DD` that passes the date check is exactly the ISO text of the date it yields |
| Calendar.CanonicalTextAccepted | main.py:314-318 | Among texts shaped like `YYYY-MM-DD`, the date check accepts exactly the ISO texts of real dates, each as its own date |
| Calendar.CanonicalTextOrderIsChronological | database.py:79 | For `YYYY-MM-DD` dates, one sorts before another as text exactly when it is earlier in the calendar |
| Calendar.UnpaddedTextOrderIsNotChronological | database.py:79 | "2024-9-30" and "2024-10-01" both pass; the earlier date sorts as later text |
| Calendar.RejectedMonth | main.py:314-318 | Month 13 is refused |
| Calendar.RejectedSeparator | main.py:314-318 | Slashes instead of hyphens are refused |
| Calendar.RejectedDay32 | main.py:314-318 | Day 32 is refused |
| Calendar.RejectedFebruary30 | main.py:314-318 | 30 February is refused |
| Calendar.RejectedLeapDay2023 | main.py:314-318 | 29 February of a common year is refused |
| Calendar.RejectedLeapDay1900 | main.py:314-318 | 29 February of a century year not divisible by 400 is refused |
| Calendar.RejectedYearZero | main.py:314-318 | Year 0000 is refused |
| Calendar.AcceptedLeapDay2024 | main.py:314-318 | 29 February 2024 passes |
| Calendar.AcceptedLeapDay2000 | main.py:314-318 | 29 February 2000 passes |
| Calendar.AcceptedOneDigitFields | main.py:314-318 | "2024-1-5" passes as 5 January 2024 |
| Calendar.AcceptedSpacePaddedDay | main.py:314-318 | "2024-01- 5" passes as 5 January 2024 |
| Calendar.AcceptedOneDigitMonth | main.py:314-318 | "2024-9-30" passes as 30 September 2024 |
| Calendar.AcceptedFirstOfOctober | main.py:314-318 | "2024-10-01" passes as 1 October 2024 |
| Decimals.ParseDecimal | main.py:322 | A number is read only from non-empty text, and it is negative only when the text starts with a minus sign |
| Decimals.ParseFormatDecimal | main.py:322 | Every decimal written out in plain notation reads back as the same decimal, sign and scale included |
| Decimals.FormatDecimalIsStripped | main.py:303-306 | A written-out amount has no whitespace for `strip` to remove |
| Decimals.ExceedsRespectsValue | main.py:254 | Comparing an amount with a whole number depends on its value, not on how it was written ("5", "5.0", "05.00") |
| Decimals.IsPositiveRespectsValue | main.py:323 | Whether an amount is above zero depends only on its value |
| Decimals.ParseTwelveFifty | main.py:322 | "12.50" reads as 1250 hundredths |
| Decimals.ParseNegative | main.py:322 | "-5" reads as minus five |
| Decimals.ParseBareLeadingPoint | main.py:322 | "+.5" reads as five tenths |
| Decimals.ParseBareTrailingPoint | main.py:322 | "5." reads as five |
| Decimals.ParseNotANumber | main.py:321-328 | ".", "abc" and "1.2.3" are not numbers |
| Validation.Check | main.py:309-328 | On stripped texts, the checks pass only for a real date, a non-empty category and an amount text that reads as a number above zero, which is the amount returned |
| Validation.Validate | main.py:300-328 | An accepted form yields a valid expense: stripped texts, a real date, a non-empty category, an amount above zero, and the stripped description |
| Validation.CheckReportsFirstBrokenRule | main.py:309-328 | On stripped texts, the error is exactly the first rule, in checking order, that the texts break |
| Validation.ReportsFirstBrokenRule | main.py:300-328 | The form is refused with a given error exactly when it breaks that rule and none checked before it |
| Validation.CheckAcceptsWhenNoRuleBroken | main.py:309-328 | On stripped texts, the checks pass exactly when no rule is broken |
| Validation.AcceptsWhenNoRuleBroken | main.py:300-331 | A form passes exactly when it breaks no rule, and the expense then carries the stripped date, category and the amount read from the stripped amount text |
| Validation.DescriptionNeverRejects | main.py:305-331 | Changing the description, even to nothing, never changes whether or why a form is refused; only the stored description changes |
| Validation.ValidateSeesStrippedFields | main.py:303-306 | Two forms whose fields strip to the same texts get the same outcome |
| Validation.ErrorMessage | main.py:310-327 | The message shown for each broken rule is one of the four texts `add_expense` shows, never empty |
| Validation.ErrorMessagesDistinct | main.py:310-327 | The four messages differ, so the message tells which rule broke |
| Validation.ValidateOfStripped | main.py:303-331 | A form with nothing to strip that passes the four checks yields its own texts and the amount read |
| Validation.ValidExpenseRoundTrip | main.py:300-331 | Every valid expense, typed back into the form, passes and yields itself: the checks accept exactly the valid expenses |
| Validation.SurroundingWhitespaceIgnored | main.py:303-306 | Whitespace typed around every field does not change the outcome |
| ExpenseDb.ListedBeforeTransitive | database.py:79 | The `date DESC, id DESC` order is transitive |
| ExpenseDb.ListedBeforeConnected | database.py:79 | Two rows with different (date, id) keys are ordered one way or the other |
| ExpenseDb.ListedBeforeIrreflexive | database.py:79 | No row is listed before itself |
| ExpenseDb.InsertListed | database.py:78-81 | Placing a row into an ordered listing keeps it ordered and adds exactly that row |
| ExpenseDb.Listing | database.py:78-81 | The listing holds exactly the table's rows, each as often as stored, in `date DESC, id DESC` order |
| ExpenseDb.ListingIsUnique | database.py:79 | With unique ids there is only one arrangement in that order, so the listing is determined by the rows |
| ExpenseDb.RemoveId | database.py:93-95 | After deleting an id no row carries it, every other row stays, and a row went exactly when one carried the id |
| ExpenseDb.RemoveIdKeepsIdsIncreasing | database.py:93 | Deleting keeps the remaining rows in id order |
| ExpenseDb.RemoveAbsentId | database.py:93-98 | Deleting an id that no row carries changes nothing |
| ExpenseDb.RemoveIdAt | database.py:93-98 | With unique ids, deleting the id of one row removes exactly that row, the others keep their order |
| ExpenseDb.ExampleDatesOrder | database.py:79 | "2024-01-02" sorts after "2024-01-01" as text |
| ExpenseDb.ListingExample | database.py:78-81 | Rows 1 (2024-01-01), 2 (2024-01-02), 3 (2024-01-01) are listed as 2, 3, 1 |
| ExpenseDb.ExpenseStore.constructor | database.py:15-16 | A store on a new file has no table, no rows and a zero counter |
| ExpenseDb.ExpenseStore.Init | database.py:23-52 | Creating the table keeps all rows and the counter, so a second call changes nothing |
| ExpenseDb.ExpenseStore.Insert | database.py:54-71 | Without a table nothing changes and no id comes back; otherwise the row is appended under the counter plus one, an id never handed out before (deleted rows included), greater than every earlier id, and nothing else changes |
| ExpenseDb.ExpenseStore.FetchAll | database.py:73-86 | The result holds exactly the stored rows in `date DESC, id DESC` order, and is empty for an empty table |
| ExpenseDb.ExpenseStore.Delete | database.py:88-103 | Reports true exactly when a row carried the id; afterwards the rows are those without the id, in order, and the counter is unchanged |
| Export.ExportRow | main.py:410 | A data row has the record's five columns and then, sixth, the export date; `Export.DecodeExportRow` reads the record back from it |
| Export.DecodeExportRow | main.py:410 | A data row reads back as the record it was written from, whatever its export date |
| Export.ExportTable | main.py:403-410 | The table has one row more than the records, and the header comes first |
| Export.ExportRowAt | main.py:409-410 | Row k+1 is record k's five columns followed by the clock's k-th reading |
| Export.UniformExportDate | main.py:410 | When every clock reading gives the same day, every row carries that day |
| Export.ExportRoundTrip | main.py:403-410 | Reading the table back gives exactly the fetched records, in fetch order |
| Export.ExportInjective | main.py:403-410 | Different record lists never give the same table |
| Export.HeaderIsNotARecord | main.py:406 | The header row cannot be read as a record |
| Export.BuildExport | main.py:386-410 | An empty fetch is refused with nothing written; otherwise the result is the header then one row per record, with the clock read once per row |
| Screen.AmountColour | main.py:253-257 | An amount is shown red exactly when it is above 100 (its unscaled digits exceed 100 times the scale's power of ten), green otherwise |
| Screen.AmountColourRespectsValue | main.py:253-257 | The colour of an amount depends on its value, not on how it was written |
| Screen.ColourThreshold | main.py:254-257 | 100 and 100.00 are green, 100.01 is red: the comparison is strict |
| Screen.RowViews | main.py:368-373 | One row widget per record; `Screen.RowViewAt` gives each one's record and colour |
| Screen.ViewOf | main.py:353-373 | The list shows the placeholder exactly when there is nothing to list, and otherwise one row widget per record |
| Screen.AddMessage | main.py:309-340 | `add_expense` reports success exactly when the expense was added, an error otherwise |
| Screen.DeleteMessage | main.py:264-268 | Deleting reports success exactly when a row went, an error otherwise |
| Screen.ExportMessage | main.py:390-412 | Exporting reports success exactly when there was at least one row, and a warning when there was none |
| Screen.RowViewAt | main.py:368-370 | Row widget k shows fetched record k in the colour of its amount |
| Screen.BuildRowViews | main.py:368-373 | The loop adds one row widget per fetched record, in order |
| Screen.ViewShowsListing | main.py:346-373 | The list shows every stored row once, in listing order, and shows the placeholder exactly when the table is empty |
| Screen.StoredRowsPassedChecks | main.py:309-325 | Every stored row has a real date, a category and an amount above zero |
| Screen.ExpenseScreen.constructor | main.py:275-283 | The screen opens with today's date written `YYYY-MM-DD` in the date input, a text the date check accepts as today; the other inputs are empty, there is no message and the store is fresh without a table |
| Screen.ExpenseScreen.RefreshList | main.py:346-376 | The list shows the view of the current listing; nothing else changes |
| Screen.ExpenseScreen.InitializeApp | main.py:285-298 | The table exists afterwards, rows, counter and issued ids are kept, the list shows them, and the loaded message is shown |
| Screen.ExpenseScreen.Save | main.py:330-340 | Without a table the insert fails, the store, inputs and list are unchanged and the error message is shown; otherwise the expense is stored under the counter plus one, a never-issued id that becomes the counter, the inputs other than the date are cleared, the list is refreshed and the success message is shown |
| Screen.ExpenseScreen.Submit | main.py:308-340 | Given the outcome of the checks: a broken rule is reported with its message and leaves the store, inputs and list unchanged; an accepted expense is saved as in `Save` |
| Screen.ExpenseScreen.AddExpense | main.py:300-344 | A form that breaks a rule is refused with that rule's error and its message, and the store, inputs and list are unchanged; one that passes is stored as its validated expense under the counter plus one, a never-issued id that becomes the counter; every stored row stays valid, and the message matches the outcome |
| Screen.ExpenseScreen.DeleteExpense | main.py:262-271 | Reports true exactly when a row carried the id, removes exactly those rows, keeps the counter, refreshes the list only then, and shows the success or error message accordingly |
| Screen.ExpenseScreen.ExportCsv | main.py:386-412 | An empty table is refused with the "No data to export!" warning; otherwise the table built from the listing, which reads back as the listing, and the message names the row count and the file |

## Left out

- The Kivy widgets, layout, popups, message colours and auto-clear, and the chart placeholder are not modelled. They are presentation only. `show_message` is reduced to the `message` field of `Screen.ExpenseScreen`: its text and kind.
- The file side of the export is not modelled: the `exports` directory, how the timestamped file name is formed (it is a parameter of `Screen.ExpenseScreen.ExportCsv`), and `csv.writer`'s quoting. A cell keeps the value it is written from, and Python's `str()` of the amount float is not modelled.
- Clocks are parameters: the default date in `Screen.ExpenseScreen.constructor` and the export clock in `Export.BuildExport`.
- SQLite failures (`sqlite3.Error` turning into `None`, `[]` or `False`, and the re-raise in `_init_db`), connections, commits, logging and the `created_at` column are not modelled. The one failure modelled is the missing table.
- ExpenseDb.ExpenseStore.Insert: ids are unbounded. SQLite's limit of 2^63 - 1 on `AUTOINCREMENT` ids is not modelled.
- Validation.Validate: amounts are exact decimal literals (optional sign, digits, optional point and fraction). Python's `float()` also takes exponents, `inf`, `nan`, underscores and non-ASCII decimal digits (`float("١٢")` is 12.0, which the model reports as not a number), and rounds to binary. The amount input's `float` filter (main.py:154), which limits what can be typed, is not modelled. `inf` would be accepted, and `nan` passes the `<= 0` check before the insert fails. A literal too small for a float reads as 0.0 and is refused as not positive; the model calls it positive.
- Screen.AmountColour: the colour is decided on the exact decimal. The source compares the stored float, so amounts within rounding distance of 100 may get the other colour.
- Calendar.ParseDate: only ASCII digits are accepted. Python's `\d` and `int()` also take other Unicode decimal digits.
- Calendar.FormatDate: zero-pads years below 1000 to four digits. Some platforms' `strftime("%Y")` does not. It is used only to state what the date check accepts.
- An `expenses.db` file that already holds a table and rows is not modelled. The store starts empty.
- `charts.py` is not part of this model. It holds the aggregation and chart code.
- `__init__.py` is not part of this model. It holds package metadata and re-exports only.
- The `try`/`except` blocks in the screen that print an error and show a generic message are not modelled. They only catch failures of widgets and of code outside this model.
