# Property-tax inquiry robot: the deterministic core in Dafny

This project models the parts of the property-tax inquiry robot that can be
stated as pure logic. The rest of the robot is window automation and
network glue. The modelled parts are:

- **The document database** (`DocDatabase`, module `ReportStore`). It is an
  append-only ledger of tax-adjustment reports. Each report is keyed by
  report date and tax year and carries the property numbers its table
  lists. The store answers two questions: "is this report stored?" and
  "which reports mention property P?".
- **The doc2archive harvester** (module `Doc2Archive`). It cuts report
  tokens into seven-column rows and joins a report's pages. It parses one
  tab-separated line of the document list. It runs the loop that stores
  every tax adjustment ("EAENDR") not stored yet, with the first table
  column as the report's property list.
- **Missing payments from the accounting client** (module
  `MissingPayments`). Entries with the same title and status are merged
  and their amounts summed. Case nodes are picked by the property number in
  their text. Danish amount strings such as `"1.234,56-"` are converted to
  numbers.
- **The frozen-debt postponement rule** (module `Structura`). A case waits
  when a frozen debt's status reads `Indfrielse pr. dd.mm.yyyy` with a date
  later than today minus three days.

Supporting modules:

- `Results`: `Option` and `Result`.
- `Text`: Python's `split`, `join`, `replace`, `endswith` and `in` on strings.
- `Digits`: decimal digit runs.
- `Calendar`: proleptic Gregorian day ordinals, as `date.toordinal()` computes them.

Modelling choices:

- Amounts are exact decimals (`real`), not binary floats.
- The rows' amount converter is a parameter of `ParseRows`, `BuildCase` and
  `BuildCases`. `PropertyDebt` fixes it to `ConvertAmount`, the model of
  `_convert_str_to_float`.
- The clock is a parameter, an `Instant` of day ordinal and microseconds.
- The two SQLite tables are two sequences. A report's row id is its
  position plus one.
- A call that raises in Python returns `Err` in the model.
- `add_report_data` writes inside one transaction and commits once at its
  end. `ReportStore.AddReportTransaction` lets any of its inserts raise, a
  parameter standing for the file's behaviour, and shows that a raising
  call leaves the committed store as it was. The other store operations
  and the harvester use the call that does not raise, `AddReportData`.

Nothing in `sqlite_process.py` keeps `(report_date, tax_year)` unique:
`add_report_data` inserts without checking. Only the harvester's
`is_report_in_database` check before each insert keeps keys unique.
`ReportStore.AddReportAllowsDuplicateKeys` shows the store
accepting a duplicate, and `Doc2Archive.HarvestPreservesUniqueKeys` shows
the harvester keeping keys unique.

## Model

| member | source | states |
|---|---|---|
| ReportStore.CreateTables | robot_framework/sub_process/sqlite_process.py:10-40 | creating the tables leaves the schema in place and keeps every stored report and mention |
| ReportStore.CreateTablesIdempotent | robot_framework/sub_process/sqlite_process.py:14-38 | `CREATE ... IF NOT EXISTS` twice is the same as once |
| ReportStore.Open | robot_framework/sub_process/sqlite_process.py:6-8 | opening a store yields the schema and exactly the data the file held |
| ReportStore.AddReportData | robot_framework/sub_process/sqlite_process.py:42-77 | without the schema the call fails; otherwise exactly one report is appended, one mention per listed property follows in list order, each pointing at the new report's row id, and all earlier rows stay unchanged |
| ReportStore.AddReportTransaction | robot_framework/sub_process/sqlite_process.py:42-77 | an insert that raises leaves the committed store unchanged and reports the first raising statement; the call succeeds exactly when the schema exists and no insert raises, and then commits exactly what `AddReportData` gives |
| ReportStore.AddReportPreservesIntegrity | robot_framework/sub_process/sqlite_process.py:64-75 | if every mention names an existing report before the insert, that still holds after it |
| ReportStore.AddedReportIsFound | robot_framework/sub_process/sqlite_process.py:54-62 | after adding `(d, y)`, `is_report_in_database(d, y)` is true whatever the store held |
| ReportStore.AddReportAllowsDuplicateKeys | robot_framework/sub_process/sqlite_process.py:42-77 | adding the same key twice stores two equal reports, so the store itself does not keep keys unique |
| ReportStore.IsReportInDatabase | robot_framework/sub_process/sqlite_process.py:79-92 | fails without the schema; otherwise true exactly when some stored report has both the given date and year |
| ReportStore.MatchingReports | robot_framework/sub_process/sqlite_process.py:91 | the `WHERE` rows all equal the key, and there is one exactly when the key is stored |
| ReportStore.Search | robot_framework/sub_process/sqlite_process.py:113-121 | every joined row has the searched property number and carries the date and year of the report its row id names |
| ReportStore.SearchProperty | robot_framework/sub_process/sqlite_process.py:95-121 | fails without the schema; otherwise every result is an exact property-number match joined with its owning report |
| ReportStore.SearchAppend | robot_framework/sub_process/sqlite_process.py:113-121 | the join over more mentions is the join over the old ones followed by the join over the new ones |
| ReportStore.SearchExtendedReports | robot_framework/sub_process/sqlite_process.py:116 | adding a report that no existing mention names leaves the join unchanged |
| ReportStore.SearchFresh | robot_framework/sub_process/sqlite_process.py:66-75 | the mentions of one report yield one hit per occurrence of the property in its list, duplicates included |
| ReportStore.SearchAfterAdd | robot_framework/sub_process/sqlite_process.py:66-75 | after an insert, `search_property(p)` is the old result followed by exactly `count(p, L)` hits on the new report |
| ReportStore.SearchUnaffected | robot_framework/sub_process/sqlite_process.py:113-121 | lookups of a property not in the inserted list are unchanged |
| ReportStore.SearchCountsMentions | robot_framework/sub_process/sqlite_process.py:113-121 | with referential integrity, the search returns one row per matching mention |
| ReportStore.FirstIngestionExample | robot_framework/sub_process/sqlite_process.py:42-121 | on a fresh file, one insert of two properties makes the first findable with row id 1 and leaves an unknown property with no hits |
| Doc2Archive.Chunk | robot_framework/sub_process/doc2archive_process.py:66-67 | `len(v)/7` rows of exactly 7 tokens each, which laid end to end give `v` back |
| Doc2Archive.ChunkFlatten | robot_framework/sub_process/doc2archive_process.py:66-69 | re-chunking the tokens of seven-column rows gives the same rows back |
| Doc2Archive.ExtractPageValues | robot_framework/sub_process/doc2archive_process.py:44-69 | a page is rejected exactly when its token count is not a multiple of 7; otherwise its rows have 7 tokens and concatenate to the tokens |
| Doc2Archive.ExtractPdfValues | robot_framework/sub_process/doc2archive_process.py:72-89 | fails exactly when some page fails; otherwise the rows concatenate to all pages' tokens in order and each has 7 tokens |
| Doc2Archive.ExtractPdfValuesIsChunkOfAllTokens | robot_framework/sub_process/doc2archive_process.py:83-89 | joining the pages' rows is chunking all their tokens at once |
| Doc2Archive.FirstColumnOfChunks | robot_framework/sub_process/doc2archive_process.py:268 | the property list is every seventh token, starting with the first |
| Doc2Archive.ParseDocumentData | robot_framework/sub_process/doc2archive_process.py:153-166 | succeeds exactly when the line has at least 7 tabs; the result is pieces 1, 2 and 6 of the tab split with the last piece dropped |
| Doc2Archive.ParseRenderedLine | robot_framework/sub_process/doc2archive_process.py:162-166 | a line made of at least 7 tab-free cells, each followed by a tab, parses to cells 1, 2 and 6 |
| Doc2Archive.Ingest | robot_framework/sub_process/doc2archive_process.py:265-269 | a document that is not "EAENDR", or a tax adjustment whose key is already stored, leaves the store as it is; a tax adjustment fails exactly when the tables are missing (`NoSuchTable("reports")`) or, for a new key, when saving the document or reading its table fails; otherwise the store becomes exactly `add_report_data` of the report's date, year and first table column |
| Doc2Archive.HarvestFrom | robot_framework/sub_process/doc2archive_process.py:264-270 | the harvest only appends; earlier reports and mentions are never changed, even when it stops at a failure |
| Doc2Archive.HarvestAddsOnlyNewAdjustments | robot_framework/sub_process/doc2archive_process.py:264-269 | every report the harvest adds is a listed tax adjustment whose key was absent before it was added |
| Doc2Archive.HarvestPreservesUniqueKeys | robot_framework/sub_process/doc2archive_process.py:265-269 | unique keys before the harvest stay unique after it, even when the list repeats a key |
| Doc2Archive.IngestPreservesIntegrity | robot_framework/sub_process/doc2archive_process.py:267-269 | one step keeps every mention pointing at a stored report |
| Doc2Archive.HarvestPreservesIntegrity | robot_framework/sub_process/doc2archive_process.py:264-270 | the whole harvest keeps every mention pointing at a stored report |
| Doc2Archive.HarvestCompletes | robot_framework/sub_process/doc2archive_process.py:264-269 | with the tables in place and every tax adjustment's document saved and read without error, the loop runs to the end; a stop is always caused by a tax adjustment from that point on with missing tables or an unreadable document |
| Doc2Archive.HarvestStoresEveryAdjustment | robot_framework/sub_process/doc2archive_process.py:264-269 | a harvest that finishes has stored the key of every listed tax adjustment |
| Doc2Archive.IngestStoresFirstColumn | robot_framework/sub_process/doc2archive_process.py:266-269 | a new tax adjustment is stored with the first column of its rows as its property list, so a search finds each property once per row |
| MissingPayments.FirstWithKey | robot_framework/sub_process/sap_process.py:29-30 | the first entry with the given title and status, or none exactly when no entry has them |
| MissingPayments.AppendEntry | robot_framework/sub_process/sap_process.py:24-34 | on a match, the length is unchanged, the first matching entry gains the new amount and every other entry is untouched; with no match, the new entry is appended at the end |
| MissingPayments.AppendEntryFirstOfRepeated | robot_framework/sub_process/sap_process.py:29-32 | when entries passed to the case repeat a key, only the first of them gains the new amount |
| MissingPayments.KeyTotalAppend | robot_framework/sub_process/sap_process.py:34 | appending an entry adds its amount to its own title and status only |
| MissingPayments.KeyTotalUpdate | robot_framework/sub_process/sap_process.py:31 | changing one entry's amount changes only its own title and status sum, by the difference |
| MissingPayments.TotalUpdate | robot_framework/sub_process/sap_process.py:31 | changing one entry's amount changes the grand total by the difference |
| MissingPayments.AppendEntryTotal | robot_framework/sub_process/sap_process.py:29-34 | the sum of all amounts grows by exactly the new entry's amount |
| MissingPayments.AppendEntryKeyTotal | robot_framework/sub_process/sap_process.py:29-34 | the sum for each title and status grows by the new amount for the new entry's key and by nothing for any other key |
| MissingPayments.AppendEntryKeepsKeysUnique | robot_framework/sub_process/sap_process.py:24-34 | pairwise distinct keys stay distinct, and the keys present are the old ones plus the new entry's |
| MissingPayments.MergeEntriesKeys | robot_framework/sub_process/sap_process.py:78-84 | the fold over the rows gives unique keys, namely exactly the keys of the rows |
| MissingPayments.MergeEntriesKeyTotals | robot_framework/sub_process/sap_process.py:78-84 | each merged entry's amount is the sum of the amounts of all rows with its title and status |
| MissingPayments.MergeEntriesTotal | robot_framework/sub_process/sap_process.py:78-84 | merging keeps the grand total |
| MissingPayments.FindTreeItems | robot_framework/sub_process/sap_process.py:91-103 | a node is kept exactly when its text contains the property number, and only nodes of the tree are kept |
| MissingPayments.FindTreeItemsAppend | robot_framework/sub_process/sap_process.py:97-101 | the filter works node by node in tree order: filtering a concatenation concatenates the filtered parts |
| MissingPayments.FindTreeItemsBySubstring | robot_framework/sub_process/sap_process.py:100 | a node is kept exactly when the property number occurs at some position of its text |
| MissingPayments.ParseDecimal | robot_framework/sub_process/sap_process.py:120 | `float` of an unsigned decimal is never negative |
| MissingPayments.ConvertAmountSign | robot_framework/sub_process/sap_process.py:106-120 | converts exactly when the unsigned normalised text is a number; the result is negative exactly when the text ends with '-' and the value is non-zero; otherwise it is the unsigned value |
| MissingPayments.ConvertAmountIgnoresLeadingMinus | robot_framework/sub_process/sap_process.py:117-118 | a leading '-' does not change the result, since only a trailing '-' gives the sign |
| MissingPayments.Fraction | robot_framework/sub_process/sap_process.py:120 | the digits after a decimal point are worth at least 0 and less than 1 |
| MissingPayments.FractionValue | robot_framework/sub_process/sap_process.py:120 | the digits after the point, moved past it, are worth their integer value, so the fraction is that value over the matching power of ten |
| MissingPayments.ParseDecimalPoint | robot_framework/sub_process/sap_process.py:120 | `float` of `whole.fraction`, with at least one digit on either side, is the value of the whole digits plus the value of the digits after the point |
| MissingPayments.ParseDecimalDigits | robot_framework/sub_process/sap_process.py:120 | `float` of a non-empty run of digits is the number they spell |
| MissingPayments.ParseDecimalAccepts | robot_framework/sub_process/sap_process.py:120 | the parser succeeds exactly on a non-empty digit run, or on digits, one point and digits with at least one digit in all |
| MissingPayments.SignedOf | robot_framework/sub_process/sap_process.py:117-120 | once the text without its '-' parses, the result is that value, negated exactly when the text ends with '-' |
| MissingPayments.SignedLeadingMinus | robot_framework/sub_process/sap_process.py:117-118 | a '-' put in front of the normalised text changes nothing |
| MissingPayments.SignedDecimal | robot_framework/sub_process/sap_process.py:117-120 | digits, a point, decimals and an optional trailing '-' give the unsigned value, negated exactly when the '-' is there |
| MissingPayments.ConvertFormattedAmount | robot_framework/sub_process/sap_process.py:106-120 | every amount written in the client's display format ("1.234,56-") converts back to itself |
| MissingPayments.ConvertAmountExample | robot_framework/sub_process/sap_process.py:108 | "1.234,56-" converts to -1234.56 |
| MissingPayments.ParseRows | robot_framework/sub_process/sap_process.py:78-83 | one entry per row, in order, keyed by that row's text and status |
| MissingPayments.ParseRowsAmounts | robot_framework/sub_process/sap_process.py:78-83 | each entry's amount is its row's converted amount; the rows fail exactly when some row's amount does not convert |
| MissingPayments.BuildCase | robot_framework/sub_process/sap_process.py:69-84 | a case keeps the node's text as its title and its entries have pairwise distinct keys |
| MissingPayments.GridBody | robot_framework/sub_process/sap_process.py:78 | the grid's rows without the last one (the totals row), unchanged and in order |
| MissingPayments.BuildCaseKeys | robot_framework/sub_process/sap_process.py:78-84 | the keys of a built case are exactly the title and status pairs of the grid's rows, the totals row excepted |
| MissingPayments.ParseRowsKeyTotal | robot_framework/sub_process/sap_process.py:78-84 | when every row converts, the parsed entries with a given title and status sum to the converted amounts of the rows with that title and status |
| MissingPayments.BuildCaseAmounts | robot_framework/sub_process/sap_process.py:69-84 | a case is built exactly when every amount of the grid, the totals row excepted, converts; each of its entries then carries the sum of the converted amounts of the rows with its title and status |
| MissingPayments.BuildCases | robot_framework/sub_process/sap_process.py:68-86 | one case per selected node, in order, titled by the node's text, each with unique keys |
| MissingPayments.Collect | robot_framework/sub_process/sap_process.py:68-86 | the cases in node order when every one is built, and otherwise a failure that one of them raised |
| MissingPayments.BuildCasesEach | robot_framework/sub_process/sap_process.py:68-86 | the loop succeeds exactly when every node's case is built, and case `i` is then the case built from node `i` |
| MissingPayments.BuildCasesConverts | robot_framework/sub_process/sap_process.py:68-86 | the loop succeeds exactly when every amount in every node's grid converts |
| MissingPayments.PropertyDebt | robot_framework/sub_process/sap_process.py:45-88 | a person missing from the client has no cases; otherwise there is one case per node whose text contains the property number, titled by that text, each with unique keys |
| MissingPayments.PropertyDebtConverts | robot_framework/sub_process/sap_process.py:66-88 | for a person in the client, the call raises exactly when some found node's grid holds an amount that does not convert |
| MissingPayments.PropertyDebtCases | robot_framework/sub_process/sap_process.py:66-88 | for a person in the client, case `i` of a successful call is the case built from found node `i`, so its entries are the merged, converted rows of that node's grid |
| Structura.ThreeDaysAgo | robot_framework/sub_process/structura_process.py:236-237 | the cut-off is three days before now at the same time of day; it exists exactly from the fourth day of year 1 on |
| Structura.Midnight | robot_framework/sub_process/structura_process.py:245 | a parsed date is a valid instant at midnight |
| Structura.CutoffBeforeMidnight | robot_framework/sub_process/structura_process.py:246 | the cut-off is before a date's midnight exactly when the date is later than today minus three days, whatever the time of day |
| Structura.MatchIndfrielse | robot_framework/sub_process/structura_process.py:238-244 | a match captures a dd.mm.yyyy text, and the status is the literal lead, one character other than a line break, a space, the date and any rest |
| Structura.MatchRendered | robot_framework/sub_process/structura_process.py:238-244 | every status of that shape matches, whatever follows, and captures its date |
| Structura.AcceptedStatusDoesNotMatch | robot_framework/sub_process/structura_process.py:216-217 | the status "Accepteret med indefrysning" never matches |
| Structura.ParseDate | robot_framework/sub_process/structura_process.py:245 | a parsed date is a real day; a failure names the text |
| Structura.FormatDate | robot_framework/sub_process/structura_process.py:238 | a day written as dd.mm.yyyy has the pattern's date shape |
| Structura.ParseFormatDate | robot_framework/sub_process/structura_process.py:245 | every real day written as dd.mm.yyyy parses back to itself |
| Structura.FormatParseDate | robot_framework/sub_process/structura_process.py:245 | a text that parses is the written form of its date, and a text fails exactly when no real day is written that way |
| Structura.ShouldSkip | robot_framework/sub_process/structura_process.py:225-249 | an empty list never causes a skip, and a clock too early for the subtraction raises |
| Structura.ScanStepOver | robot_framework/sub_process/structura_process.py:240-247 | a debt that neither postpones nor raises is passed over |
| Structura.ScanTrue | robot_framework/sub_process/structura_process.py:240-247 | the loop returns true exactly when some debt's date is after the cut-off and no unreadable date comes before it |
| Structura.ScanFalse | robot_framework/sub_process/structura_process.py:240-249 | the loop returns false exactly when no debt's date is after the cut-off and no date is unreadable |
| Structura.PostponesIsRecent | robot_framework/sub_process/structura_process.py:236-246 | with today's cut-off, a debt postpones exactly when its date is later than today minus three days |
| Structura.ShouldSkipTrue | robot_framework/sub_process/structura_process.py:225-249 | skip exactly when some debt's date is later than today minus three days and no unreadable date precedes it |
| Structura.ShouldSkipFalse | robot_framework/sub_process/structura_process.py:225-249 | go ahead exactly when no debt is that recent and no date is unreadable |
| Structura.ShouldSkipReadable | robot_framework/sub_process/structura_process.py:225-249 | without unreadable dates, the rule is "any debt's date is later than today minus three days" |
| Structura.ScanIgnoresInert | robot_framework/sub_process/structura_process.py:240-247 | inserting a debt that neither postpones nor raises does not change the loop's outcome |
| Structura.ShouldSkipIgnoresInert | robot_framework/sub_process/structura_process.py:238-247 | a debt that is neither recent nor unreadable never affects the result |
| Structura.ShouldSkipIgnoresOtherStatuses | robot_framework/sub_process/structura_process.py:238-243 | a debt whose status does not start with the pattern never affects the result |
| Structura.ShouldSkipOrderFree | robot_framework/sub_process/structura_process.py:240-249 | two orderings of the same debts that both give an answer give the same answer |
| Structura.ShouldSkipOrderFreeReadable | robot_framework/sub_process/structura_process.py:240-249 | without unreadable dates, the result does not depend on the order of the list |
| Structura.SkipSurvivesSuperset | robot_framework/sub_process/structura_process.py:240-249 | adding debts anywhere can turn "go ahead" into "skip" but never the reverse, whenever the larger list gives an answer |
| Structura.RecentPreventsFalse | robot_framework/sub_process/structura_process.py:243-247 | one recent debt anywhere rules out "go ahead" |
| Structura.SkipSurvivesAppend | robot_framework/sub_process/structura_process.py:240-247 | appending debts keeps a skip a skip |
| Structura.ShouldSkipIgnoresTimeOfDay | robot_framework/sub_process/structura_process.py:236-246 | only today's date matters, not the time of day |
| Structura.ScanSameDay | robot_framework/sub_process/structura_process.py:246 | two cut-offs on the same day give the same loop outcome |
| Structura.NonexistentDateRaises | robot_framework/sub_process/structura_process.py:245 | "Indfrielse pr. 31.02.2024" makes the rule raise instead of answering |
| Calendar.OrdinalMonotone | robot_framework/sub_process/structura_process.py:246 | comparing day ordinals is comparing dates chronologically, and distinct dates have distinct ordinals |
| Text.RemoveAll | robot_framework/sub_process/sap_process.py:116-118 | `replace(c, "")` leaves no `c` and shortens the text by the number of `c`s |
| Text.ReplaceAll | robot_framework/sub_process/sap_process.py:116 | `replace(a, b)` keeps the length, leaves no `a`, and maps each `a` to `b` position by position |
| Text.JoinSplit | robot_framework/sub_process/doc2archive_process.py:162 | joining the pieces of a tab split gives the line back |
| Text.SplitJoin | robot_framework/sub_process/doc2archive_process.py:162 | splitting a join of tab-free pieces gives the pieces back |
| Text.SplitLength | robot_framework/sub_process/doc2archive_process.py:162 | a split has one more piece than the line has tabs |
| Text.SplitPiecesLackSeparator | robot_framework/sub_process/doc2archive_process.py:162 | no piece of a split holds the separator |
| Text.ContainsIffOccurs | robot_framework/sub_process/sap_process.py:100 | the substring scan finds the pattern exactly when it occurs at some position |

## Left out

- Window automation is not modelled: driving the tax, archive, accounting and register clients, their trees, grids, popups, scrolling and retries, and the clipboard. The harvester receives the document list as data. It receives "save document `i` and read its pages" as a function of the list position. The accounting client's tree and grids arrive as lists of nodes and rows.
- PDF text extraction and the token regex at `doc2archive_process.py:55-58` are not modelled. They are a foreign library and the regex engine, so a page is modelled as its token list. The check at line 63, that every non-space character was read, concerns that raw text and is not modelled.
- `read_document_list`'s clipboard parsing, `save_document`'s UI check, `search_for_documents` and the log call at `doc2archive_process.py:270` are not modelled.
- `structura_process.py` beyond `should_skip_due_to_frozen_debt` is not modelled. That covers the address regexes, `get_owners` with `difflib` fuzzy matching, and reading the frozen debts. Those are regex backtracking and opaque library behaviour.
- `go_process.py`, `mail_process.py`, `process.py`, `reset.py` and `config.py` are not part of this model. They are a REST client, mail templating and sending, orchestration, and constants.
- The SQLite engine itself is not modelled: connections, the index, and the `__main__` block of `sqlite_process.py`. Row ids follow insertion order, which SQLite gives a table nobody deletes from.
- ReportStore.SearchProperty: the result order is the mentions' insertion order. SQLite does not promise an order for this join. `SearchProperty`'s own contract does not depend on the order, but `ReportStore.SearchAppend`, `ReportStore.SearchFresh`, `ReportStore.SearchAfterAdd` and `ReportStore.FirstIngestionExample` state results as sequences in that order, so they hold only for it.
- MissingPayments.ParseDecimal: accepts plain digits with at most one '.' and at least one digit. Python's `float` also accepts surrounding whitespace, '+', exponents, `inf`/`nan`, underscores and non-ASCII digits, and all of those make the model fail where Python succeeds.
- MissingPayments.ConvertAmountSign: amounts are exact decimals. Python's binary float rounding, and the float sum and `:.2f` formatting in `__repr__`, are left out.
- Structura.MatchIndfrielse: `\d` is ASCII digits only. Python's `\d` on `str` also matches other Unicode decimal digits, which `strptime` would then read.
- Structura.ShouldSkip: `datetime.today()` is the `now` parameter. The result is `Err` wherever Python raises: an impossible matched date, or a clock in the first three days of year 1.
- Doc2Archive.ParseDocumentData: an `IndexError` for a short line becomes `Err(MissingColumn)`.
- Doc2Archive.HarvestFrom: stores through `AddReportData`, so an insert that raises inside `add_report_data` is not among its failures; `ReportStore.AddReportTransaction` covers that call on its own.
- Doc2Archive.HarvestFrom: a failure ends the loop with the reports stored so far. Each `add_report_data` commits separately, so those reports stay.
