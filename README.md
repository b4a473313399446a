# whatifstocks in Dafny

whatifstocks is a Flask application. It imports monthly stock prices from a
price service into a Postgres database and ranks the stocks of an exchange by
how their average price changed from one year to another. This project models
its core logic and proves properties of the model:

- `database.dfy` (module `Database`) covers the database helpers.
  - `iter_pages` is a method with a loop, proved equal to a reference function.
  - The id check of `SurrogatePK.get_by_id` is a function over the kinds of
    value a caller can pass.
  - `CRUDMixin.update` is a method of a small record class.
- `models.dfy` (module `Models`) covers the four tables.
  - The tables are Exchange, IndustrySector, Stock and StockMonthlyPrice, held
    as a value `Tables`.
  - The tables' invariants are their unique constraints, their non-nullable
    foreign keys and their issued primary keys.
  - Inserts and cascading deletes are functions over `Tables`, with lemmas
    showing each keeps the invariants.
  - `Store` wraps the tables in a class whose methods move its fields along
    those functions.
- `queries.dfy` (module `Queries`) gives the meaning of
  `yeartoyear_price_percent_change_query` as a pure function over rows. Its
  steps are:
  - the per-year averages;
  - the joins with the sector and both averages;
  - the exchange filter;
  - the guarded percent change;
  - ROUND to two places;
  - GROUP BY;
  - ORDER BY descending.

  The query reads result rows of its own (`StockRow`, `SectorRow`,
  `YearlyPrice`, `ResultRow`), each carrying the primary key as a column, as
  the rows of a SQL select do. `Models` keys its rows by a map and its
  `Stock` has no id field, so the two are kept apart rather than shared.
- `commands.dfy` (module `Commands`) covers the three CLI commands.
  - `create_exchange` runs against a `Store`.
  - `download_stock_monthly_prices` has its retry and backoff loop and the CSV
    lines it writes.
  - `import_stocks_and_monthly_prices` has its guards, its date and price
    parsing and its per-ticker commits.
  - Each command is a method, proved equal to a function that states the whole
    run. Lemmas about those functions state what the command promises.
- `text.dfy` (module `Text`) holds the string helpers the commands use:
  `isdigit`, `int()`, `lstrip('0')`, `split` and `replace`.
- `wrappers.dfy` (module `Wrappers`) holds the `Option`, `Result` and
  `Outcome` datatypes.

The price service is a function parameter, so the model never performs a
request:

- In the download, `server(i, k)` is the reply to the k-th request for the
  i-th ticker.
- In the import, `replies(i)` is the reply for the i-th ticker.

A reply is one of three kinds:

- `TimeSeries(entries)`: the body holds 'Monthly Adjusted Time Series'.
- `RateLimited`: the body mentions the API call volume.
- `OtherError`: anything else.

Files are modelled as values: the ticker file is its text, and the output file
is the list of lines written to it. A file option that was not given is
`None` (the ticker file) or `false` (the output file, `hasOutputFile`). Sleeps are the list of durations
requested, in seconds.

How the commands end:

- As the code is written, a fetched but empty series ends the download with
  an error. The echo on that path uses the malformed format string `'{1]'`,
  which raises. The model keeps that behaviour (`Commands.DownloadOutcome`).
- The download without an output file fails at the header write, before any
  request (`Commands.DownloadGuards`).
- The import's `Stock.create` gives no industry sector, so the stock commit
  fails. See "## Findings".

## Model

| member | source | states |
|---|---|---|
| Database.Listed | whatifstocks/database.py:31-34 | defines when a page number is shown: within the left edge, inside the window around the current page, or within the right edge |
| Database.WithGaps | whatifstocks/database.py:29-38 | defines the output for a list of shown pages: a None before every page that does not follow the last one yielded |
| Database.PageLinks | whatifstocks/database.py:17-38 | defines the whole output of iter_pages as the shown pages 1..pages with markers at the gaps |
| Database.IterPages | whatifstocks/database.py:17-38 | the yielded sequence is the shown pages in ascending order, with a None inserted before every page that does not follow the previous one |
| Database.ListedUpToMembers | whatifstocks/database.py:30-34 | the shown pages up to n are exactly the numbers 1..n that satisfy the edge or window condition, and they strictly increase |
| Database.WithGapsMembers | whatifstocks/database.py:35-38 | adding the markers neither drops nor invents page numbers |
| Database.WithGapsIncreasing | whatifstocks/database.py:35-38 | strictly increasing numbers stay strictly increasing once markers are added |
| Database.WithGapsMarkerThenNumber | whatifstocks/database.py:35-37 | every None is followed at once by a number: never two in a row, never one at the end |
| Database.WithGapsMarkersAtGaps | whatifstocks/database.py:29-38 | a None stands right before a number exactly when that number is not one more than the previous number (`last`, starting at 0) |
| Database.WithGapsConsecutive | whatifstocks/database.py:35-38 | a run of consecutive pages gets no marker at all |
| Database.PageLinksNumbers | whatifstocks/database.py:29-38 | every yielded number lies in 1..pages; a number is yielded exactly when it meets the condition; the numbers strictly increase |
| Database.PageLinksEdgesAndWindow | whatifstocks/database.py:31-34 | the first left_edge pages, the last right_edge pages, and the pages near the current page are always yielded |
| Database.PageLinksMarkers | whatifstocks/database.py:35-37 | the pagination output puts markers exactly at the gaps, and each marker is followed by a number |
| Database.PageLinksNoLeadingMarker | whatifstocks/database.py:29-37 | when page 1 is shown, the output starts with page 1 and no marker |
| Database.PageLinksNoPages | whatifstocks/database.py:30 | with no pages nothing is yielded |
| Database.PageLinksAllShown | whatifstocks/database.py:30-38 | when every page meets the condition, the output is exactly 1..pages with no marker |
| Database.TruncateTowardZero | whatifstocks/database.py:101 | int() of a float drops the fraction toward zero: within 1 of the float, never past it |
| Database.LookupKey | whatifstocks/database.py:97-101 | a key is looked up exactly for an int, a bool, a float or a non-empty all-digit string; an int is its own key, a bool is 1 or 0, and a float is truncated toward zero |
| Database.GetById | whatifstocks/database.py:94-102 | a record is returned exactly when the id is accepted and its key is in the table, and it is the record under that key |
| Database.GetByDecimalText | whatifstocks/database.py:97-101 | an id given as its decimal text finds the same record as the integer id |
| Database.GetByPaddedText | whatifstocks/database.py:97-101 | leading zeros in a text id do not change the record found |
| Database.Record.Update | whatifstocks/database.py:55-59 | every given attribute takes the given value, and every other attribute keeps its old one |
| Models.DaysInMonth | whatifstocks/stockanalysis/commands.py:189-190 | a month of a calendar date has 28 to 31 days |
| Models.ValidDate | whatifstocks/stockanalysis/commands.py:189-190 | defines the dates date() accepts: years 1 to 9999, months 1 to 12, days within the month |
| Models.Consistent | whatifstocks/stockanalysis/models.py:6-71 | defines the valid store: the four unique constraints, the non-nullable foreign keys, and keys issued below the counter |
| Models.ExchangeWithSymbol | whatifstocks/stockanalysis/commands.py:141-147 | the exchange found carries the symbol, and none is found exactly when no exchange has it |
| Models.ExchangeWithSymbolUnique | whatifstocks/stockanalysis/models.py:16-18 | in a consistent store the exchange with a symbol is the only one |
| Models.InsertExchange | whatifstocks/database.py:49-53 | defines Exchange.create: UniqueViolation on a taken symbol, else the row under the next key |
| Models.InsertSector | whatifstocks/database.py:49-53 | defines IndustrySector.create: UniqueViolation on a taken title, else the row under the next key |
| Models.InsertStock | whatifstocks/stockanalysis/models.py:44-59 | defines Stock.create: NotNullViolation without a sector, UniqueViolation on a taken (exchange, ticker), ForeignKeyViolation on a missing exchange or sector, else the row under the next key |
| Models.InsertPrice | whatifstocks/stockanalysis/models.py:62-71 | defines one price row insert: UniqueViolation on a taken (stock, date), ForeignKeyViolation on a missing stock, else the row under the next key |
| Models.InsertPrices | whatifstocks/stockanalysis/commands.py:193-199 | defines the batch commit: the first failing row fails the whole batch, else every row is added in order |
| Models.InsertExchangeSpec | whatifstocks/stockanalysis/models.py:16-18 | the insert fails exactly when the symbol is taken; otherwise there is one more exchange under a fresh key, the other tables are unchanged and the store stays consistent |
| Models.InsertSectorSpec | whatifstocks/stockanalysis/models.py:34-36 | the insert fails exactly when the title is taken; otherwise one sector is added under a fresh key and the store stays consistent |
| Models.InsertStockSpec | whatifstocks/stockanalysis/models.py:47-59 | a stock is added exactly when it names a sector, its exchange and sector exist, and the ticker is new on that exchange; a missing sector gives NotNullViolation |
| Models.InsertPriceSpec | whatifstocks/stockanalysis/models.py:62-71 | a price is added exactly when its stock exists and has no price on that date, and then exactly that row is added under the next key and the store stays consistent |
| Models.InsertPricesSpec | whatifstocks/stockanalysis/models.py:62-71 | a committed batch lands under consecutive fresh keys in batch order, keeps every earlier price and the store stays consistent |
| Models.InsertPricesConsistent | whatifstocks/stockanalysis/models.py:69-71 | committing a batch of prices keeps every invariant of the store |
| Models.InsertPricesKeys | whatifstocks/stockanalysis/commands.py:193-199 | the batch's rows get the next keys in order, and no other table changes |
| Models.PriceDateTakenAfter | whatifstocks/stockanalysis/models.py:69-71 | after one price row is added, a date is taken for its stock exactly when it was taken before or is the row's date |
| Models.InsertPricesOneStock | whatifstocks/stockanalysis/models.py:69-71 | a batch for one stock commits exactly when none of its dates is taken for that stock and no two of its rows share a date |
| Models.CascadeDeleteExchange | whatifstocks/stockanalysis/models.py:12-14 | defines deleting an exchange: the exchange, its stocks and their prices go |
| Models.CascadeDeleteSector | whatifstocks/stockanalysis/models.py:30-32 | defines deleting a sector: the sector, its stocks and their prices go |
| Models.CascadeDeleteStock | whatifstocks/stockanalysis/models.py:52-54 | defines deleting a stock: the stock and its prices go |
| Models.RemovePrice | whatifstocks/database.py:68-71 | defines deleting one price row |
| Models.UpdateStockRow | whatifstocks/database.py:55-66 | defines committing a changed stock row: UniqueViolation when another stock has its (exchange, ticker), ForeignKeyViolation on a missing exchange or sector, else that row replaced |
| Models.UpdateStockSpec | whatifstocks/database.py:55-66 | the update commits exactly when the changed store is consistent; it then replaces only that row and touches no other table |
| Models.CascadeDeleteExchangeSpec | whatifstocks/stockanalysis/models.py:12-14 | deleting an exchange removes exactly it, its stocks and their prices; every surviving row keeps its value, nothing is added, and the store stays consistent |
| Models.CascadeDeleteSectorSpec | whatifstocks/stockanalysis/models.py:30-32 | deleting a sector removes exactly it, its stocks and their prices; every surviving row keeps its value, nothing is added, and the store stays consistent |
| Models.CascadeDeleteStockSpec | whatifstocks/stockanalysis/models.py:52-54 | deleting a stock removes exactly it and its prices; every surviving row keeps its value, nothing is added, and the store stays consistent |
| Models.RemovePriceSpec | whatifstocks/database.py:68-71 | deleting a price removes only that row; every other row keeps its value and the store stays consistent |
| Models.CascadeNeeded | whatifstocks/database.py:105-115 | without the cascade, deleting an exchange that has stocks would break a non-nullable foreign key |
| Models.Store.constructor | whatifstocks/stockanalysis/models.py:6-71 | a new store is empty and consistent |
| Models.Store.CreateExchange | whatifstocks/database.py:49-53 | the store moves as the exchange insert says and stays consistent; it returns the new key or the integrity error |
| Models.Store.CreateSector | whatifstocks/database.py:49-53 | the store moves as the sector insert says and stays consistent |
| Models.Store.CreateStock | whatifstocks/database.py:49-53 | the store moves as the stock insert says and stays consistent |
| Models.Store.AddPrices | whatifstocks/stockanalysis/commands.py:197-199 | the batch is committed whole or not at all, and the store stays consistent |
| Models.Store.DeleteExchange | whatifstocks/stockanalysis/models.py:12-14 | the store becomes the cascade delete of the exchange and stays consistent |
| Models.Store.DeleteSector | whatifstocks/stockanalysis/models.py:30-32 | the store becomes the cascade delete of the sector and stays consistent |
| Models.Store.DeleteStock | whatifstocks/stockanalysis/models.py:52-54 | the store becomes the cascade delete of the stock and stays consistent |
| Models.Store.DeletePrice | whatifstocks/database.py:68-71 | the price row is removed and the store stays consistent |
| Models.Store.UpdateStock | whatifstocks/database.py:55-66 | the store moves as the stock update commit says: the changed row is written when the constraints hold, else nothing changes and the integrity error is returned; the store stays consistent |
| Queries.Round2 | whatifstocks/stockanalysis/queries.py:18-33 | defines ROUND(x, 2): half away from zero, in hundredths |
| Queries.PercentChange | whatifstocks/stockanalysis/queries.py:24-33 | defines price_change_percent: the change over the guarded from-average, times 100, rounded |
| Queries.AvgPrice | whatifstocks/stockanalysis/queries.py:45-65 | defines a stock's average close price in a year: none without rows, else the mean of the selected prices |
| Queries.Guard | whatifstocks/stockanalysis/queries.py:28-31 | the divisor is never zero, and it is the from-average whenever that average is not zero |
| Queries.Round2Close | whatifstocks/stockanalysis/queries.py:18-33 | ROUND(x, 2) is within half a hundredth of x |
| Queries.Round2Hundredths | whatifstocks/stockanalysis/queries.py:18-33 | ROUND(x, 2) is a whole number of hundredths |
| Queries.Round2Monotone | whatifstocks/stockanalysis/queries.py:18-33 | rounding preserves order and maps 0 to 0 |
| Queries.PercentChangeSign | whatifstocks/stockanalysis/queries.py:24-33 | for a positive from-average, the change is non-negative when the price rose, non-positive when it fell, and zero when it is unchanged |
| Queries.PercentChangeFromZero | whatifstocks/stockanalysis/queries.py:28-31 | from a zero average, the change is the to-average divided by 0.01, times 100, rounded |
| Queries.SelectedMembers | whatifstocks/stockanalysis/queries.py:45-65 | the values averaged are exactly the close prices of the stock's rows in that year |
| Queries.SelectedCount | whatifstocks/stockanalysis/queries.py:45-53 | each close price is averaged as many times as the stock has rows in that year at that price |
| Queries.AvgPricePresent | whatifstocks/stockanalysis/queries.py:45-65 | a stock has an average for a year exactly when it has a price row in that year |
| Queries.MeanBounds | whatifstocks/stockanalysis/queries.py:49 | an average lies between the smallest and the largest value averaged |
| Queries.AvgPriceConstant | whatifstocks/stockanalysis/queries.py:45-53 | when all of a stock's prices in the year are equal, the average is that price |
| Queries.Joined | whatifstocks/stockanalysis/queries.py:67-80 | defines the join of stocks, sectors and both averages, filtered by exchange |
| Queries.RowsOfStockMembers | whatifstocks/stockanalysis/queries.py:67-70 | a stock's rows are exactly one per sector it joins, when both averages exist and the exchange matches |
| Queries.JoinedMembers | whatifstocks/stockanalysis/queries.py:67-80 | the joined rows are exactly the rows of the (stock, sector) pairs that join and pass the exchange filter |
| Queries.Dedup | whatifstocks/stockanalysis/queries.py:72-81 | defines GROUP BY over all selected columns: the first occurrence of each row |
| Queries.DedupSpec | whatifstocks/stockanalysis/queries.py:72-75 | grouping keeps every row that occurs and no duplicates |
| Queries.SortDesc | whatifstocks/stockanalysis/queries.py:82 | defines ORDER BY price_change_percent DESC as an insertion sort |
| Queries.SortDescSpec | whatifstocks/stockanalysis/queries.py:82 | the ordered rows are a permutation of the input, in descending percent change |
| Queries.YearToYearQuery | whatifstocks/stockanalysis/queries.py:11-84 | defines the query's result: the joined rows, grouped, ordered by percent change descending |
| Queries.YearToYearRows | whatifstocks/stockanalysis/queries.py:11-84 | a row is in the result exactly when it comes from a stock on the exchange, its sector, and both yearly averages |
| Queries.YearToYearRowContents | whatifstocks/stockanalysis/queries.py:18-70 | each result row has a price in both years, the two averages rounded to 2 places, and the rounded change computed from the unrounded averages with the guarded divisor |
| Queries.YearToYearOrdered | whatifstocks/stockanalysis/queries.py:72-82 | the result is sorted by percent change, descending, and has no repeated row |
| Queries.YearToYearOncePerStock | whatifstocks/stockanalysis/queries.py:53-75 | when stock and sector ids are unique, each stock appears at most once |
| Commands.ReadLines | whatifstocks/stockanalysis/commands.py:55 | defines readlines: the text cut after each newline |
| Commands.Tickers | whatifstocks/stockanalysis/commands.py:55-56 | defines the ticker list: each line read with its newlines removed |
| Commands.LineEnd | whatifstocks/stockanalysis/commands.py:55 | a line ends just past its first '\n', or at the end of the text |
| Commands.StripNewlines | whatifstocks/stockanalysis/commands.py:56 | normalisation keeps the number of lines |
| Commands.ReadLinesSpec | whatifstocks/stockanalysis/commands.py:55 | the lines read join back to the whole file, none is empty, none holds a '\n' before its last character, and every line but the last ends with '\n': the file is cut just after each newline |
| Commands.ReadLinesConcat | whatifstocks/stockanalysis/commands.py:55 | the lines read join back to the whole file |
| Commands.ReadLinesShape | whatifstocks/stockanalysis/commands.py:55 | no line read is empty or holds a '\n' before its last character, and only the last may lack its '\n' |
| Commands.StripNewlinesSpec | whatifstocks/stockanalysis/commands.py:56 | each ticker is its line with every '\n' removed, and keeps every other character |
| Commands.TickersAreSplit | whatifstocks/stockanalysis/commands.py:55-56 | the tickers are the file split at '\n', without the empty piece after a final newline |
| Commands.TickersStep | whatifstocks/stockanalysis/commands.py:55-56 | a full line contributes exactly its text as the next ticker |
| Commands.ParseCloseAt | whatifstocks/stockanalysis/commands.py:189-190 | defines the date parse: three '-'-separated parts, each digits once its leading zeros are stripped, forming a valid calendar date, else BadDate |
| Commands.ParseDecimal | whatifstocks/stockanalysis/commands.py:191 | defines the price parse: digits with an optional point and fraction, else BadPrice |
| Commands.ParseDateKey | whatifstocks/stockanalysis/commands.py:189-190 | every date's YYYY-MM-DD key parses back to that date |
| Commands.ZeroComponentRejected | whatifstocks/stockanalysis/commands.py:190 | an all-zero component is rejected, as int('') raises |
| Commands.ParseCloseAtNeedsThreeParts | whatifstocks/stockanalysis/commands.py:189-190 | a key without exactly three '-'-separated parts is a bad date |
| Commands.ParseDecimalWhole | whatifstocks/stockanalysis/commands.py:191 | a whole number's text parses to that number |
| Commands.ParseDecimalFraction | whatifstocks/stockanalysis/commands.py:191 | digits, a point and digits parse to the whole part plus the fraction |
| Commands.ParseDecimalRejects | whatifstocks/stockanalysis/commands.py:191 | the empty text and a lone point are rejected |
| Commands.TriesFrom | whatifstocks/stockanalysis/commands.py:79-93 | counting from try k, the loop stops at a try between k and 5 |
| Commands.TriesFromSpec | whatifstocks/stockanalysis/commands.py:79-93 | the tries before the last one got no series, and the last try got the series or was the fifth |
| Commands.TriesSpec | whatifstocks/stockanalysis/commands.py:65-93 | between 1 and 5 requests are made; the series is fetched exactly when one of the first five replies has it; stopping before try 5 means it was fetched |
| Commands.TriesIsFirst | whatifstocks/stockanalysis/commands.py:79-93 | the loop stops at the first try that gets the series, or at try 5 |
| Commands.SleepsUpTo | whatifstocks/stockanalysis/commands.py:99-104 | defines the sleeps of the first n tries: 10^k seconds after a rate-limited try k below the fifth |
| Commands.Sleeps | whatifstocks/stockanalysis/commands.py:99-104 | defines a ticker's sleeps as those of the tries the loop made |
| Commands.SleepsUpToSpec | whatifstocks/stockanalysis/commands.py:94-112 | a sleep of 10^k seconds happens exactly for a rate-limited try k below 5 |
| Commands.SleepsSpec | whatifstocks/stockanalysis/commands.py:94-112 | the sleeps are 10^k for the rate-limited tries k < 5 that were made; try 5 never sleeps; there are at most 4 sleeps |
| Commands.SleepsBackoff | whatifstocks/stockanalysis/commands.py:94-112 | a ticker sleeps fewer than 5 times, and every sleep is 10^k seconds for some 1 <= k < 5 |
| Commands.RequestWithRetry | whatifstocks/stockanalysis/commands.py:76-112 | the loop's try count, success flag, series and sleeps are those of the retry specification |
| Commands.CsvLine | whatifstocks/stockanalysis/commands.py:119-120 | defines one output line: the ticker, the entry's date key and its adjusted close text, joined by commas, then a newline |
| Commands.EntryLinesSpec | whatifstocks/stockanalysis/commands.py:114-120 | one line 'ticker,close_at,close_price' per monthly entry, in series order |
| Commands.EntryLines | whatifstocks/stockanalysis/commands.py:116-120 | defines the lines written for a series: one CSV line per entry, in series order |
| Commands.FetchTicker | whatifstocks/stockanalysis/commands.py:76-112 | a ticker's fetch has a series exactly when one of the five tries got one, and then it is the reply of the first such try; it sleeps fewer than 5 times, each a backoff sleep |
| Commands.WriteLines | whatifstocks/stockanalysis/commands.py:116-120 | the output gains exactly the series' lines, in order |
| Commands.Download | whatifstocks/stockanalysis/commands.py:47-125 | defines the whole download: the missing-file failures, then the header and each ticker's fetch in file order |
| Commands.DownloadFrom | whatifstocks/stockanalysis/commands.py:70-123 | defines the ticker loop: each ticker's sleeps, then its lines when a non-empty series was fetched, nothing when none was, and a stop on the malformed message when it was empty |
| Commands.DownloadGuards | whatifstocks/stockanalysis/commands.py:51-68 | without a ticker file the download fails on it; without an output file it writes nothing, sleeps never and fails on the header write; a completed download had both |
| Commands.DownloadStockMonthlyPrices | whatifstocks/stockanalysis/commands.py:47-125 | the lines written, the sleeps and the outcome are those of the download specification, missing-file failures included |
| Commands.DownloadFromLines | whatifstocks/stockanalysis/commands.py:70-123 | the output only grows, never past the fetched tickers' lines, and is all of them when the run completes |
| Commands.DownloadFromSleeps | whatifstocks/stockanalysis/commands.py:70-112 | the sleeps only grow, never past the tickers' retry sleeps, and are all of them when the run completes |
| Commands.DownloadFromOutcome | whatifstocks/stockanalysis/commands.py:114-123 | the run completes exactly when no fetched series is empty; otherwise it stops on the malformed message |
| Commands.FetchedLinesMembers | whatifstocks/stockanalysis/commands.py:114-120 | the fetched lines are exactly the CSV lines of the entries of fetched series |
| Commands.FetchesBackoff | whatifstocks/stockanalysis/commands.py:99-104 | every sleep of a ticker's retry loop is 10^k seconds for some 1 <= k < 5 |
| Commands.AllSleepsBackoff | whatifstocks/stockanalysis/commands.py:99-104 | across tickers, every sleep is a backoff sleep |
| Commands.DownloadLines | whatifstocks/stockanalysis/commands.py:67-120 | with both files given: the output starts with the header; every later line is a CSV line of a fetched entry; on completion it is the header then every fetched ticker's lines in order |
| Commands.DownloadSleeps | whatifstocks/stockanalysis/commands.py:99-104 | with both files given, every sleep of the download is 10, 100, 1000 or 10000 seconds |
| Commands.DownloadOutcome | whatifstocks/stockanalysis/commands.py:114-123 | with both files given, the download completes exactly when no fetched series is empty; otherwise it fails on the malformed message |
| Commands.NoEmptySeriesFetched | whatifstocks/stockanalysis/commands.py:114-122 | no fetch is an empty series exactly when every fetched ticker got a non-empty series |
| Commands.CreateExchangeCommand | whatifstocks/stockanalysis/commands.py:27-36 | a taken symbol fails and leaves the store unchanged; otherwise exactly one exchange with the given symbol and title is added; the store stays consistent |
| Commands.ImportOne | whatifstocks/stockanalysis/commands.py:164-199 | defines one ticker of the import: StockExists when taken, NoTimeSeries without the series, else the stock and price commit |
| Commands.CommitStock | whatifstocks/stockanalysis/commands.py:185-199 | defines the stock commit, then the parse, then the price commit of one ticker |
| Commands.Import | whatifstocks/stockanalysis/commands.py:134-201 | defines the whole import: the missing-file and unknown-exchange failures, then every ticker in order until one fails |
| Commands.ImportFrom | whatifstocks/stockanalysis/commands.py:163-201 | defines the ticker loop of the import: the tickers in file order until the first that fails, which ends the run with its error |
| Commands.ParseEntriesSpec | whatifstocks/stockanalysis/commands.py:188-197 | the series parses exactly when every entry parses; the rows are the entries' rows, one per entry, in order |
| Commands.ParseEntriesErrors | whatifstocks/stockanalysis/commands.py:189-191 | a series that does not parse fails on a bad date or a bad price |
| Commands.ParseEntriesStop | whatifstocks/stockanalysis/commands.py:188-191 | once an entry fails, later entries do not change the error |
| Commands.ParseSeries | whatifstocks/stockanalysis/commands.py:188-197 | the loop builds the rows of the series, or stops with the first entry's error |
| Commands.ParseEntriesStock | whatifstocks/stockanalysis/commands.py:193-195 | the rows belong to the new stock, one per entry |
| Commands.ParseEntrySpec | whatifstocks/stockanalysis/commands.py:189-195 | an entry parses exactly when its date and its price parse; the date is checked first |
| Commands.ParseEntry | whatifstocks/stockanalysis/commands.py:189-195 | defines one entry's row: the date parse first, then the price parse, then the row for the stock |
| Commands.ParseEntries | whatifstocks/stockanalysis/commands.py:188-197 | defines the series parse: every entry's row in series order, or the error of the first entry that fails |
| Commands.ImportTicker | whatifstocks/stockanalysis/commands.py:164-199 | one ticker's guards, stock commit and price commit move the store as the per-ticker specification says, and the store stays consistent |
| Commands.ImportStocksAndMonthlyPrices | whatifstocks/stockanalysis/commands.py:134-201 | the store and the outcome are those of the import specification, and the store stays consistent |
| Commands.CommitStockExtends | whatifstocks/stockanalysis/commands.py:185-199 | committing a ticker keeps the store consistent and keeps every earlier row |
| Commands.CommitStockAdds | whatifstocks/stockanalysis/commands.py:185-199 | the only new stock is the ticker's, on its exchange; new prices are that stock's; a failure adds no price |
| Commands.CommitStockPass | whatifstocks/stockanalysis/commands.py:185-199 | the commit succeeds exactly when a sector is given and exists, the exchange exists, the ticker is new, the series parsed, and its dates are distinct |
| Commands.CommitStockPassAdds | whatifstocks/stockanalysis/commands.py:185-199 | on success, exactly one stock and the batch's prices, in order, are added |
| Commands.ImportOneExtends | whatifstocks/stockanalysis/commands.py:164-199 | one ticker keeps the store consistent and keeps every earlier row |
| Commands.ImportOneAdds | whatifstocks/stockanalysis/commands.py:164-199 | one ticker adds at most its own stock and that stock's prices; a failed ticker adds no price |
| Commands.ImportOnePass | whatifstocks/stockanalysis/commands.py:164-199 | a ticker imports exactly when it is new on the exchange, the reply has the series, the series parses with distinct dates, and a valid sector is given |
| Commands.ImportOnePassAdds | whatifstocks/stockanalysis/commands.py:185-199 | an imported ticker adds its stock and one price per entry, in series order |
| Commands.ImportOneWithoutSector | whatifstocks/stockanalysis/commands.py:185-186 | without a sector, a ticker never imports and changes nothing; a new ticker with a series fails with NotNullViolation |
| Commands.ImportFromKeeps | whatifstocks/stockanalysis/commands.py:163-201 | the loop keeps the store consistent and keeps every earlier row; new stocks sit on the exchange with tickers from the file |
| Commands.ImportFromPass | whatifstocks/stockanalysis/commands.py:163-201 | a completed loop had every ticker new before and present after, and no ticker twice |
| Commands.ImportFromAbort | whatifstocks/stockanalysis/commands.py:163-199 | when the loop fails at ticker j, every earlier ticker is on the exchange, new stocks come from tickers up to j, and every new price belongs to a stock the import created for a ticker before j, so ticker j kept at most its own stock and none of its prices |
| Commands.AbortedAt | whatifstocks/stockanalysis/commands.py:163-199 | defines the shape an import leaves when it stops at ticker j |
| Commands.AbortedStep | whatifstocks/stockanalysis/commands.py:163-199 | a ticker committed before the abort keeps that shape of the abort one ticker further back |
| Commands.ImportFromWithoutSector | whatifstocks/stockanalysis/commands.py:185-186 | without a sector, the loop changes nothing and fails on a non-empty ticker list |
| Commands.TickerTakenAfter | whatifstocks/stockanalysis/models.py:56-59 | after a step that adds only stocks of ticker y, a ticker is taken exactly when it was taken before or is y |
| Commands.ImportFromSucceeds | whatifstocks/stockanalysis/commands.py:163-201 | with a valid sector, new distinct tickers and importable replies, the loop completes |
| Commands.ImportKeeps | whatifstocks/stockanalysis/commands.py:134-201 | the import keeps the store consistent and every earlier row; new stocks sit on the named exchange with tickers from the file; a missing file or unknown exchange changes nothing |
| Commands.ImportPass | whatifstocks/stockanalysis/commands.py:134-201 | a completed import had a file and a known exchange, and every ticker was new before and present after, without repeats |
| Commands.ImportWithoutSector | whatifstocks/stockanalysis/commands.py:185-186 | as written, the import never changes the store and fails whenever the exchange exists and the file names a ticker |
| Commands.ImportWithSector | whatifstocks/stockanalysis/commands.py:185-186 | given an existing exchange, a valid sector, new distinct tickers and importable replies, the import completes |

## Left out

- HTTP, JSON decoding, the URL pattern and the API key are left out. Replies are a parameter; in the download it is indexed by ticker and try, in the import by ticker.
- The import calls the service once per ticker, so `replies(i)` is the one reply for ticker i.
- click.echo output, the prompts and the progress bar are not modelled. They change no state.
- `sleep` is recorded as a list of durations and not performed. The import's `sleep(1)` after each ticker is not recorded.
- The ticker file and the output file are modelled as text and as lines written. File opening and encoding are not part of this model.
- The exchange symbol of the download only builds the URL and the echoed messages, so the download model does not take it.
- The order of `monthly_prices_raw.items()` is taken to be the series order, a sequence of entries. The lemmas state contents per entry and the order of that sequence, never a particular date order.
- A series entry without '5. adjusted close' (a KeyError) is not modelled. An entry is its date key and its adjusted close.
- Commands.ParseCloseAt: accepts ASCII digits only and no signs, spaces or underscores, a subset of what int() accepts.
- Commands.ParseDecimal: accepts plain decimal numerals only. Signs, exponents, spaces, 'NaN' and 'Infinity', which Decimal also accepts, are rejected as BadPrice.
- Numeric(12,4) precision and rounding on insert are not modelled. Prices are exact rationals.
- Queries.Round2Close: ROUND is modelled as rounding half away from zero on rationals. The lemmas rely only on the half-hundredth bound and on monotonicity, not on Postgres's tie-break.
- Queries.SortDescSpec: ORDER BY leaves rows with equal percent change in an unspecified order. The model fixes one order and proves only sortedness and permutation.
- `StockYearlyPrice` is not part of this model's source. Its rows are taken to be (stock_id, close_at, close_price), the columns the query reads.
- The SQLAlchemy session, query building and event listeners are not modelled, and neither are timestamps or `save`'s return value. The store's methods commit at once.
- The primary keys of all four tables come from one counter. Only their uniqueness within a table matters to the model.
- Commands.Importable: quantifies over every stock id because the new stock's key is not known in advance. A series whose parse is independent of the id meets it.
- Database.LookupKey: a float id is a rational number, so the float values NaN and infinity are left out; for them int() raises where the model looks up a key.
- Models.InsertExchange: the String(255) limit of exchange_symbol, title and ticker_symbol is not modelled. Longer text is accepted, where the database rejects it.
- Commands.TickersAreSplit: holds of the text after the file object's newline translation. In text mode a bare '\r' or '\r\n' reads as '\n', a translation this model does not perform.
- Database.Record.Update: models the attribute assignments only. The commit that follows, and its integrity errors, are modelled for stock rows by Models.UpdateStockRow and Models.Store.UpdateStock. Updates of the other tables are not modelled, because nothing in the commands calls update.
- Database.LookupKey: a text id is checked with ASCII digits only. Unicode digits that str.isdigit also accepts are left out.

## Findings

| source | as written | input that shows it | evidently intended | confidence | as-written member | corrected member |
|---|---|---|---|---|---|---|
| whatifstocks/stockanalysis/commands.py:185-186 | `Stock.create` is given an exchange and a ticker but no industry sector. `industry_sector_id` is a non-nullable foreign key (models.py:50, database.py:105-115), so the commit raises. | An existing exchange, a file with one new ticker, and a reply with a parseable series. The stock commit fails with a NOT NULL violation and nothing is imported. | Each stock is created with an existing industry sector, so new tickers with well-formed series import completely. | not executed | Commands.ImportWithoutSector | Commands.ImportWithSector |
