/** The command-line commands of whatifstocks/stockanalysis/commands.py:
    create_exchange, download_stock_monthly_prices and
    import_stocks_and_monthly_prices.

    The price service is a parameter: `server(i, k)` is the reply to the k-th
    request made for the i-th ticker of the file (download), `server(i)` the
    reply to the request for the i-th ticker (import). The ticker file is its
    text, the output file the sequence of lines written to it, and the sleeps
    the list of requested durations in seconds. */
module Commands {
  import opened Wrappers
  import opened Text
  import opened Models

  /** The ways a command stops early (click.BadParameter and the exceptions
      that escape it). */
  datatype CommandError =
    | MissingTickerFile      // --ticker-symbols-file not given
    | MissingOutputFile      // --monthly-prices-output-file not given: the header write raises
    | ExchangeExists         // create_exchange on a taken symbol
    | ExchangeNotFound       // import for an unknown symbol
    | StockExists            // import of a ticker already on the exchange
    | NoTimeSeries           // import reply without the time series
    | MalformedMessage       // the '{1]' format string of the empty-series echo
    | BadDate                // date(*[int(...) ...]) raised
    | BadPrice               // Decimal(...) raised
    | Db(error: DbError)     // the commit raised an integrity error

  /** A reply of the price service: the monthly series, a refusal mentioning
      the call volume, or any other body without the series. */
  datatype Response =
    | TimeSeries(entries: seq<MonthlyEntry>)
    | RateLimited
    | OtherError

  /** One entry of the monthly series: its date key and its adjusted close. */
  datatype MonthlyEntry = MonthlyEntry(closeAt: string, adjustedClose: string)

  // ---------------------------------------------------------------------------
  // The ticker file
  // ---------------------------------------------------------------------------

  /** Where the first line of a non-empty text ends: just past its first '\n',
      or at the end of the text. */
  function LineEnd(s: string): (k: nat)
    requires s != []
    ensures 0 < k <= |s|
    ensures '\n' !in s[..k - 1]
    ensures k < |s| ==> s[k - 1] == '\n'
    decreases |s|
  {
    if s[0] == '\n' || |s| == 1 then 1
    else
      var k := LineEnd(s[1..]);
      assert s[..k] == [s[0]] + s[1..][..k - 1];
      k + 1
  }

  /** file.readlines(): the lines of the text, each with its '\n' except
      possibly the last. */
  function ReadLines(s: string): seq<string>
    decreases |s|
  {
    if s == [] then [] else [s[..LineEnd(s)]] + ReadLines(s[LineEnd(s)..])
  }

  function Concat(lines: seq<string>): string
    decreases |lines|
  {
    if lines == [] then [] else lines[0] + Concat(lines[1..])
  }

  /** [l.replace('\n', '') for l in lines] */
  function StripNewlines(lines: seq<string>): (r: seq<string>)
    ensures |r| == |lines|
    decreases |lines|
  {
    if lines == [] then [] else [RemoveChar(lines[0], '\n')] + StripNewlines(lines[1..])
  }

  /** The ticker symbols of a ticker file. */
  function Tickers(file: string): seq<string> {
    StripNewlines(ReadLines(file))
  }

  /** The lines read give back the whole text, none of them is empty, each
      holds no '\n' before its last character, and only the last may lack its
      '\n': the text is cut just after each newline. */
  lemma ReadLinesSpec(s: string)
    ensures Concat(ReadLines(s)) == s
    ensures forall j :: 0 <= j < |ReadLines(s)| ==> ReadLines(s)[j] != []
    ensures forall j :: 0 <= j < |ReadLines(s)| - 1 ==> ReadLines(s)[j][|ReadLines(s)[j]| - 1] == '\n'
    ensures forall j :: 0 <= j < |ReadLines(s)| ==> '\n' !in ReadLines(s)[j][..|ReadLines(s)[j]| - 1]
  {
    ReadLinesConcat(s);
    ReadLinesShape(s);
  }

  lemma {:induction false} ReadLinesConcat(s: string)
    ensures Concat(ReadLines(s)) == s
    decreases |s|
  {
    if s != [] {
      var k := LineEnd(s);
      ReadLinesConcat(s[k..]);
      assert s == s[..k] + s[k..];
    }
  }

  lemma {:induction false} ReadLinesShape(s: string)
    ensures forall j :: 0 <= j < |ReadLines(s)| ==> ReadLines(s)[j] != []
    ensures forall j :: 0 <= j < |ReadLines(s)| - 1 ==> ReadLines(s)[j][|ReadLines(s)[j]| - 1] == '\n'
    ensures forall j :: 0 <= j < |ReadLines(s)| ==> '\n' !in ReadLines(s)[j][..|ReadLines(s)[j]| - 1]
    decreases |s|
  {
    if s != [] {
      var k := LineEnd(s);
      var rest := ReadLines(s[k..]);
      ReadLinesShape(s[k..]);
      var lines := ReadLines(s);
      assert lines == [s[..k]] + rest;
      forall j | 0 <= j < |lines|
        ensures lines[j] != []
        ensures j < |lines| - 1 ==> lines[j][|lines[j]| - 1] == '\n'
        ensures '\n' !in lines[j][..|lines[j]| - 1]
      {
        if j == 0 {
          assert j < |lines| - 1 ==> s[k..] != [];
        } else {
          assert lines[j] == rest[j - 1];
        }
      }
    }
  }

  /** Stripping the newlines keeps every line, in order, and removes every '\n'. */
  lemma {:induction false} StripNewlinesSpec(lines: seq<string>)
    ensures forall j :: 0 <= j < |lines| ==> StripNewlines(lines)[j] == RemoveChar(lines[j], '\n')
    ensures forall j :: 0 <= j < |lines| ==> '\n' !in StripNewlines(lines)[j]
    ensures forall j :: 0 <= j < |lines| ==>
      multiset(StripNewlines(lines)[j]) == multiset(lines[j])['\n' := 0]
    decreases |lines|
  {
    if lines != [] {
      StripNewlinesSpec(lines[1..]);
      forall j | 0 <= j < |lines|
        ensures StripNewlines(lines)[j] == RemoveChar(lines[j], '\n')
        ensures '\n' !in StripNewlines(lines)[j]
        ensures multiset(StripNewlines(lines)[j]) == multiset(lines[j])['\n' := 0]
      {
        RemoveCharSpec(lines[j], '\n');
        if j > 0 {
          assert StripNewlines(lines)[j] == StripNewlines(lines[1..])[j - 1];
        }
      }
    }
  }

  /** The tickers are the pieces of the text between newlines, with the empty
      piece after a final newline dropped. */
  lemma {:induction false} TickersAreSplit(s: string)
    ensures Tickers(s) == (if s == [] then []
                           else if s[|s| - 1] == '\n' then Split(s, '\n')[..|Split(s, '\n')| - 1]
                           else Split(s, '\n'))
    decreases |s|
  {
    if s != [] {
      var k := LineEnd(s);
      if s[k - 1] == '\n' {
        var a, rest := s[..k - 1], s[k..];
        assert s == a + ['\n'] + rest;
        TickersStep(a, rest);
        TickersAreSplit(rest);
        SplitPrefix(a, '\n', rest);
        if rest != [] {
          assert s[|s| - 1] == rest[|rest| - 1];
          DropLastOfCons(a, Split(rest, '\n'));
        }
      } else {
        NoNewline(s);
        TickersLast(s);
        SplitWhole(s, '\n');
      }
    }
  }

  /** A first line that ends in its newline gives one ticker, the line without it. */
  lemma TickersStep(a: string, rest: string)
    requires '\n' !in a
    ensures Tickers(a + ['\n'] + rest) == [a] + Tickers(rest)
  {
    var s := a + ['\n'] + rest;
    LineEndAt(a, rest);
    assert s[..|a| + 1] == a + ['\n'];
    assert s[|a| + 1..] == rest;
    NewlineDropped(a);
  }

  lemma {:induction false} LineEndAt(a: string, rest: string)
    requires '\n' !in a
    ensures LineEnd(a + ['\n'] + rest) == |a| + 1
    decreases |a|
  {
    var s := a + ['\n'] + rest;
    if a != [] {
      assert s[1..] == a[1..] + ['\n'] + rest;
      LineEndAt(a[1..], rest);
    }
  }

  /** A text whose first line does not end in a newline has no newline. */
  lemma NoNewline(s: string)
    requires s != [] && s[LineEnd(s) - 1] != '\n'
    ensures '\n' !in s
  {
    var k := LineEnd(s);
    assert k == |s|;
    forall m | 0 <= m < |s| ensures s[m] != '\n' {
      if m < k - 1 {
        assert s[m] == s[..k - 1][m];
      }
    }
  }

  lemma {:induction false} LineEndWhole(s: string)
    requires s != [] && '\n' !in s
    ensures LineEnd(s) == |s|
    decreases |s|
  {
    if |s| > 1 {
      LineEndWhole(s[1..]);
    }
  }

  /** A non-empty text without newlines is one ticker. */
  lemma TickersLast(s: string)
    requires s != [] && '\n' !in s
    ensures Tickers(s) == [s]
  {
    LineEndWhole(s);
    assert s[..|s|] == s && s[|s|..] == [];
    assert ReadLines(s) == [s];
    assert [s][1..] == [];
    RemoveCharSpec(s, '\n');
  }

  lemma NewlineDropped(a: string)
    requires '\n' !in a
    ensures RemoveChar(a + ['\n'], '\n') == a
  {
    RemoveCharAppend(a, ['\n'], '\n');
    RemoveCharSpec(a, '\n');
    assert RemoveChar(['\n'], '\n') == [];
  }

  lemma DropLastOfCons<T>(a: T, xs: seq<T>)
    requires |xs| > 0
    ensures ([a] + xs)[..|xs|] == [a] + xs[..|xs| - 1]
  {
  }

  // ---------------------------------------------------------------------------
  // Dates and prices of the monthly series
  // ---------------------------------------------------------------------------

  /** int(n.lstrip('0')) for a component of the date key; None where it raises. */
  function ParseComponent(n: string): Option<int> {
    var d := LStripZeros(n);
    if IsDigits(d) then Some(DigitsValue(d)) else None
  }

  /** date(*[int(n.lstrip('0')) for n in raw.split('-')]): three components
      that parse, forming a real calendar date. */
  function ParseCloseAt(raw: string): Result<CalendarDate, CommandError> {
    var parts := Split(raw, '-');
    if |parts| != 3 then Failure(BadDate)
    else
      var y, m, d := ParseComponent(parts[0]), ParseComponent(parts[1]), ParseComponent(parts[2]);
      if y.None? || m.None? || d.None? then Failure(BadDate)
      else if ValidDate(Date(y.value, m.value, d.value)) then Success(Date(y.value, m.value, d.value))
      else Failure(BadDate)
  }

  /** The YYYY-MM-DD key the service uses for a date. */
  function DateKey(d: CalendarDate): string {
    PadZeros(d.year, 4) + "-" + PadZeros(d.month, 2) + "-" + PadZeros(d.day, 2)
  }

  lemma DigitsHaveNoDash(s: string)
    requires AllDigits(s)
    ensures '-' !in s && '.' !in s
  {
  }

  /** Every calendar date's key parses back to that date, its zero padding
      stripped. */
  lemma ParseDateKey(d: CalendarDate)
    ensures ParseCloseAt(DateKey(d)) == Success(d)
  {
    var ys, ms, ds := PadZeros(d.year, 4), PadZeros(d.month, 2), PadZeros(d.day, 2);
    DigitsHaveNoDash(ys);
    DigitsHaveNoDash(ms);
    DigitsHaveNoDash(ds);
    assert DateKey(d) == ys + ['-'] + (ms + ['-'] + ds);
    SplitPrefix(ys, '-', ms + ['-'] + ds);
    SplitPrefix(ms, '-', ds);
    SplitWhole(ds, '-');
    assert Split(DateKey(d), '-') == [ys, ms, ds];
    PadZerosParse(d.year, 4);
    PadZerosParse(d.month, 2);
    PadZerosParse(d.day, 2);
  }

  /** A component of zeros only strips to '' and int('') raises: such keys
      never parse. */
  lemma ZeroComponentRejected(k: nat)
    ensures ParseComponent(Zeros(k)).None?
  {
    StripPadding(k, []);
    assert Zeros(k) + [] == Zeros(k);
  }

  /** A key that does not split into exactly three components is refused. */
  lemma ParseCloseAtNeedsThreeParts(raw: string)
    requires |Split(raw, '-')| != 3
    ensures ParseCloseAt(raw) == Failure(BadDate)
  {
  }

  function Pow10(k: nat): (p: nat)
    ensures p >= 1
  {
    if k == 0 then 1 else 10 * Pow10(k - 1)
  }

  /** The value of fraction digits: DigitsValue(b) in units of 10^-|b|. */
  function FractionValue(b: string): real
    requires AllDigits(b)
  {
    (DigitsValue(b) as real) / (Pow10(|b|) as real)
  }

  /** Decimal(raw) for plain decimal numerals: digits, optionally a point and
      more digits, at least one digit in all. */
  function ParseDecimal(raw: string): Result<real, CommandError> {
    var parts := Split(raw, '.');
    if |parts| == 1 && IsDigits(parts[0]) then Success(DigitsValue(parts[0]) as real)
    else if |parts| == 2 && AllDigits(parts[0]) && AllDigits(parts[1]) && |parts[0]| + |parts[1]| > 0 then
      Success(DigitsValue(parts[0]) as real + FractionValue(parts[1]))
    else Failure(BadPrice)
  }

  /** A whole number's decimal rendering parses back to it. */
  lemma ParseDecimalWhole(n: nat)
    ensures ParseDecimal(Decimal(n)) == Success(n as real)
  {
    DigitsHaveNoDash(Decimal(n));
    SplitWhole(Decimal(n), '.');
    DecimalValue(n);
  }

  /** The rendering of a whole part, a point and fraction digits parses to the
      whole part plus the fraction's digits in units of 10^-(number of digits). */
  lemma ParseDecimalFraction(n: nat, f: string)
    requires AllDigits(f)
    ensures ParseDecimal(Decimal(n) + "." + f)
            == Success(n as real + FractionValue(f))
  {
    var w := Decimal(n);
    DigitsHaveNoDash(w);
    DigitsHaveNoDash(f);
    assert w + "." + f == w + ['.'] + f;
    SplitPrefix(w, '.', f);
    SplitWhole(f, '.');
    DecimalValue(n);
    var parts := Split(w + "." + f, '.');
    assert parts == [w, f];
    assert AllDigits(parts[0]) && AllDigits(parts[1]) && |parts[0]| + |parts[1]| > 0;
    assert DigitsValue(parts[0]) == n;
  }

  /** The empty string and a lone point are not numbers. */
  lemma ParseDecimalRejects()
    ensures ParseDecimal("").Failure? && ParseDecimal(".").Failure?
  {
    assert Split(".", '.') == ["", ""] by {
      SplitPrefix("", '.', "");
      assert "" + ['.'] + "" == ".";
    }
  }

  // ---------------------------------------------------------------------------
  // download_stock_monthly_prices: the retry loop
  // ---------------------------------------------------------------------------

  const MaxRequestTries: nat := 5

  /** The number of requests made for ticker i: up to and including the first
      reply with the series, and at most MaxRequestTries. */
  function TriesFrom(server: (nat, nat) -> Response, i: nat, k: nat): (n: nat)
    requires 1 <= k <= MaxRequestTries
    ensures k <= n <= MaxRequestTries
    decreases MaxRequestTries - k
  {
    if server(i, k).TimeSeries? || k == MaxRequestTries then k else TriesFrom(server, i, k + 1)
  }

  function Tries(server: (nat, nat) -> Response, i: nat): nat {
    TriesFrom(server, i, 1)
  }

  /** Whether the series was fetched for ticker i. */
  predicate Fetched(server: (nat, nat) -> Response, i: nat) {
    server(i, Tries(server, i)).TimeSeries?
  }

  /** The series fetched for ticker i. */
  function Series(server: (nat, nat) -> Response, i: nat): seq<MonthlyEntry>
    requires Fetched(server, i)
  {
    server(i, Tries(server, i)).entries
  }

  /** The sleeps after the first n tries: 10^k seconds after a refused try k
      below the last allowed one. */
  function SleepsUpTo(server: (nat, nat) -> Response, i: nat, n: nat): seq<nat>
    decreases n
  {
    if n == 0 then []
    else SleepsUpTo(server, i, n - 1)
         + (if server(i, n).RateLimited? && n < MaxRequestTries then [Pow10(n)] else [])
  }

  function Sleeps(server: (nat, nat) -> Response, i: nat): seq<nat> {
    SleepsUpTo(server, i, Tries(server, i))
  }

  lemma {:induction false} TriesFromSpec(server: (nat, nat) -> Response, i: nat, k: nat)
    requires 1 <= k <= MaxRequestTries
    ensures forall j :: k <= j < TriesFrom(server, i, k) ==> !server(i, j).TimeSeries?
    ensures server(i, TriesFrom(server, i, k)).TimeSeries? || TriesFrom(server, i, k) == MaxRequestTries
    decreases MaxRequestTries - k
  {
    if !server(i, k).TimeSeries? && k < MaxRequestTries {
      TriesFromSpec(server, i, k + 1);
    }
  }

  /** The requests for a ticker stop at the first reply with the series, after
      five tries at most; the series is fetched exactly when one of the first
      five replies has it. */
  lemma TriesSpec(server: (nat, nat) -> Response, i: nat)
    ensures 1 <= Tries(server, i) <= MaxRequestTries
    ensures forall k :: 1 <= k < Tries(server, i) ==> !server(i, k).TimeSeries?
    ensures Tries(server, i) < MaxRequestTries ==> Fetched(server, i)
    ensures Fetched(server, i) <==> exists k :: 1 <= k <= MaxRequestTries && server(i, k).TimeSeries?
  {
    TriesFromSpec(server, i, 1);
    if exists k :: 1 <= k <= MaxRequestTries && server(i, k).TimeSeries? {
      var k :| 1 <= k <= MaxRequestTries && server(i, k).TimeSeries?;
      assert k >= Tries(server, i);
    }
  }

  /** The first try n that has the series, or the fifth, is the number of tries. */
  lemma {:induction false} TriesIsFirst(server: (nat, nat) -> Response, i: nat, k: nat, n: nat)
    requires 1 <= k <= n <= MaxRequestTries
    requires forall j :: k <= j < n ==> !server(i, j).TimeSeries?
    requires server(i, n).TimeSeries? || n == MaxRequestTries
    ensures TriesFrom(server, i, k) == n
    decreases n - k
  {
    if k < n {
      TriesIsFirst(server, i, k + 1, n);
    }
  }

  lemma {:induction false} SleepsUpToSpec(server: (nat, nat) -> Response, i: nat, n: nat)
    ensures forall x :: x in SleepsUpTo(server, i, n) <==>
      exists k :: 1 <= k <= n && k < MaxRequestTries && server(i, k).RateLimited? && x == Pow10(k)
    ensures |SleepsUpTo(server, i, n)| <= n
    decreases n
  {
    if n > 0 {
      SleepsUpToSpec(server, i, n - 1);
    }
  }

  /** A ticker sleeps 10^k seconds after each refused try k other than the
      last allowed one, and after nothing else: never after try 5, never after
      any other failure. */
  lemma SleepsSpec(server: (nat, nat) -> Response, i: nat)
    ensures forall x :: x in Sleeps(server, i) <==>
      exists k :: 1 <= k < Tries(server, i) && k < MaxRequestTries && server(i, k).RateLimited? && x == Pow10(k)
    ensures |Sleeps(server, i)| < MaxRequestTries
  {
    TriesSpec(server, i);
    SleepsUpToSpec(server, i, Tries(server, i));
    var n := Tries(server, i);
    forall x ensures x in Sleeps(server, i) <==>
      exists k :: 1 <= k < n && k < MaxRequestTries && server(i, k).RateLimited? && x == Pow10(k)
    {
      if x in Sleeps(server, i) {
        var k :| 1 <= k <= n && k < MaxRequestTries && server(i, k).RateLimited? && x == Pow10(k);
      }
    }
    if n == MaxRequestTries {
      assert !server(i, n).RateLimited? || n == MaxRequestTries;
      assert SleepsUpTo(server, i, n) == SleepsUpTo(server, i, n - 1);
      SleepsUpToSpec(server, i, n - 1);
    }
  }

  /** The while loop of one ticker: the tries, the series when fetched and the
      sleeps requested. */
  method RequestWithRetry(server: (nat, nat) -> Response, i: nat)
    returns (fetched: bool, tries: nat, series: seq<MonthlyEntry>, sleeps: seq<nat>)
    ensures tries == Tries(server, i) && fetched == Fetched(server, i)
    ensures fetched ==> series == Series(server, i)
    ensures sleeps == Sleeps(server, i)
  {
    fetched, tries, series, sleeps := false, 0, [], [];
    while !fetched && tries < MaxRequestTries
      invariant 0 <= tries <= MaxRequestTries
      invariant forall k :: 1 <= k <= tries && !(fetched && k == tries) ==> !server(i, k).TimeSeries?
      invariant fetched ==> tries >= 1 && server(i, tries) == TimeSeries(series)
      invariant sleeps == SleepsUpTo(server, i, tries)
      decreases MaxRequestTries - tries
    {
      tries := tries + 1;
      match server(i, tries)
      case TimeSeries(entries) =>
        series := entries;
        fetched := true;
      case RateLimited =>
        if tries < MaxRequestTries {
          sleeps := sleeps + [Pow10(tries)];
        }
      case OtherError =>
    }
    TriesIsFirst(server, i, 1, tries);
  }

  // ---------------------------------------------------------------------------
  // download_stock_monthly_prices: the output file
  // ---------------------------------------------------------------------------

  const Header: string := "ticker_symbol,close_at,close_price\n"

  /** The line written for one entry of a ticker's series. */
  function CsvLine(ticker: string, e: MonthlyEntry): string {
    ticker + "," + e.closeAt + "," + e.adjustedClose + "\n"
  }

  function EntryLines(ticker: string, entries: seq<MonthlyEntry>): seq<string>
    decreases |entries|
  {
    if entries == [] then []
    else EntryLines(ticker, entries[..|entries| - 1]) + [CsvLine(ticker, entries[|entries| - 1])]
  }

  /** One line per entry, in series order. */
  lemma {:induction false} EntryLinesSpec(ticker: string, entries: seq<MonthlyEntry>)
    ensures |EntryLines(ticker, entries)| == |entries|
    ensures forall k :: 0 <= k < |entries| ==> EntryLines(ticker, entries)[k] == CsvLine(ticker, entries[k])
    decreases |entries|
  {
    if entries != [] {
      EntryLinesSpec(ticker, entries[..|entries| - 1]);
    }
  }

  /** What the retry loop got for one ticker: the series when fetched, and the
      sleeps it requested. */
  datatype Fetch = Fetch(series: Option<seq<MonthlyEntry>>, sleeps: seq<nat>)

  /** No series exactly when none of the five allowed tries got one; else the
      series of the first try that got one. At most four sleeps, each a
      backoff sleep. */
  function FetchTicker(server: (nat, nat) -> Response, i: nat): (f: Fetch)
    ensures f.series.None? <==> forall k :: 1 <= k <= MaxRequestTries ==> !server(i, k).TimeSeries?
    ensures f.series.Some? ==>
      exists k :: 1 <= k <= MaxRequestTries && server(i, k) == TimeSeries(f.series.value) &&
        forall j :: 1 <= j < k ==> !server(i, j).TimeSeries?
    ensures |f.sleeps| < MaxRequestTries && forall x :: x in f.sleeps ==> BackoffSleep(x)
  {
    TriesSpec(server, i);
    SleepsBackoff(server, i);
    Fetch(if Fetched(server, i) then Some(Series(server, i)) else None, Sleeps(server, i))
  }

  /** The fetch results of every ticker. */
  function Fetches(server: (nat, nat) -> Response): nat -> Fetch {
    (i: nat) => FetchTicker(server, i)
  }

  /** What a run of a command produced: the lines written, the sleeps
      requested and how it ended. */
  datatype DownloadRun = DownloadRun(lines: seq<string>, sleeps: seq<nat>, outcome: Outcome<CommandError>)

  /** The run from ticker i on, after `lines` were written and `sleeps` slept.
      A fetched but empty series stops the command, since the message echoed
      then has a malformed format string. */
  function DownloadFrom(tickers: seq<string>, fetch: nat -> Fetch, i: nat,
                        lines: seq<string>, sleeps: seq<nat>): DownloadRun
    decreases |tickers| - i
  {
    if i >= |tickers| then DownloadRun(lines, sleeps, Pass)
    else
      var slept := sleeps + fetch(i).sleeps;
      match fetch(i).series
      case None => DownloadFrom(tickers, fetch, i + 1, lines, slept)
      case Some(series) =>
        if series == [] then DownloadRun(lines, slept, Fail(MalformedMessage))
        else DownloadFrom(tickers, fetch, i + 1, lines + EntryLines(tickers[i], series), slept)
  }

  /** download_stock_monthly_prices */
  function Download(tickerFile: Option<string>, hasOutputFile: bool, server: (nat, nat) -> Response): DownloadRun {
    if tickerFile.None? then DownloadRun([], [], Fail(MissingTickerFile))
    else if !hasOutputFile then DownloadRun([], [], Fail(MissingOutputFile))
    else DownloadFrom(Tickers(tickerFile.value), Fetches(server), 0, [Header], [])
  }

  /** The loop writing one line per entry of a fetched series. */
  method WriteLines(output: seq<string>, ticker: string, series: seq<MonthlyEntry>) returns (output': seq<string>)
    ensures output' == output + EntryLines(ticker, series)
  {
    output' := output;
    for j := 0 to |series|
      invariant output' == output + EntryLines(ticker, series[..j])
    {
      assert series[..j + 1][..j] == series[..j];
      output' := output' + [CsvLine(ticker, series[j])];
    }
    assert series[..|series|] == series;
  }

  /** The fetch of ticker i is what its retry loop returned. */
  lemma FetchOfRetry(server: (nat, nat) -> Response, i: nat, fetched: bool, series: seq<MonthlyEntry>, sleeps: seq<nat>)
    requires fetched == Fetched(server, i) && (fetched ==> series == Series(server, i)) && sleeps == Sleeps(server, i)
    ensures Fetches(server)(i) == Fetch(if fetched then Some(series) else None, sleeps)
  {
    assert Fetches(server)(i) == FetchTicker(server, i);
  }

  /** One ticker of the download loop. */
  lemma DownloadFromStep(tickers: seq<string>, fetch: nat -> Fetch, i: nat, lines: seq<string>, sleeps: seq<nat>)
    requires i < |tickers|
    ensures DownloadFrom(tickers, fetch, i, lines, sleeps) ==
      if fetch(i).series.None? then DownloadFrom(tickers, fetch, i + 1, lines, sleeps + fetch(i).sleeps)
      else if fetch(i).series.value == [] then DownloadRun(lines, sleeps + fetch(i).sleeps, Fail(MalformedMessage))
      else DownloadFrom(tickers, fetch, i + 1, lines + EntryLines(tickers[i], fetch(i).series.value), sleeps + fetch(i).sleeps)
  {
  }

  method DownloadStockMonthlyPrices(tickerFile: Option<string>, hasOutputFile: bool, server: (nat, nat) -> Response)
    returns (output: seq<string>, sleeps: seq<nat>, r: Outcome<CommandError>)
    ensures DownloadRun(output, sleeps, r) == Download(tickerFile, hasOutputFile, server)
  {
    if tickerFile.None? {
      return [], [], Fail(MissingTickerFile);
    }
    if !hasOutputFile {
      return [], [], Fail(MissingOutputFile);
    }
    var tickers := Tickers(tickerFile.value);
    output, sleeps := [Header], [];
    ghost var fetch := Fetches(server);
    ghost var goal := DownloadFrom(tickers, fetch, 0, output, sleeps);
    var i := 0;
    while i < |tickers|
      invariant 0 <= i <= |tickers|
      invariant goal == DownloadFrom(tickers, fetch, i, output, sleeps)
    {
      var fetched, tries, series, slept := RequestWithRetry(server, i);
      FetchOfRetry(server, i, fetched, series, slept);
      DownloadFromStep(tickers, fetch, i, output, sleeps);
      sleeps := sleeps + slept;
      if fetched {
        if series == [] {
          return output, sleeps, Fail(MalformedMessage);
        }
        output := WriteLines(output, tickers[i], series);
      }
      i := i + 1;
    }
    r := Pass;
  }

  // ---------------------------------------------------------------------------
  // download_stock_monthly_prices: what the output file holds
  // ---------------------------------------------------------------------------

  /** The lines of every fetched series from ticker i on, ticker after ticker. */
  function FetchedLines(tickers: seq<string>, fetch: nat -> Fetch, i: nat): seq<string>
    decreases |tickers| - i
  {
    if i >= |tickers| then []
    else (if fetch(i).series.Some? then EntryLines(tickers[i], fetch(i).series.value) else [])
         + FetchedLines(tickers, fetch, i + 1)
  }

  /** The sleeps of every ticker from i on. */
  function AllSleeps(tickers: seq<string>, fetch: nat -> Fetch, i: nat): seq<nat>
    decreases |tickers| - i
  {
    if i >= |tickers| then [] else fetch(i).sleeps + AllSleeps(tickers, fetch, i + 1)
  }

  /** No ticker from i on has a fetched but empty series. */
  predicate NoEmptySeries(tickers: seq<string>, fetch: nat -> Fetch, i: nat) {
    forall j :: i <= j < |tickers| ==> fetch(j).series != Some([])
  }

  lemma AppendAssoc<T>(a: seq<T>, b: seq<T>, c: seq<T>)
    ensures (a + b) + c == a + (b + c)
  {
  }

  lemma PrefixAppend<T>(a: seq<T>, b: seq<T>, c: seq<T>)
    ensures a <= a + b && (b <= c ==> a + b <= a + c)
  {
  }

  /** A run keeps the lines written before it and adds at most the lines of
      the fetched series, all of them when it passes. */
  lemma {:induction false} DownloadFromLines(tickers: seq<string>, fetch: nat -> Fetch, i: nat,
                                             lines: seq<string>, sleeps: seq<nat>)
    ensures var r := DownloadFrom(tickers, fetch, i, lines, sleeps);
      && lines <= r.lines
      && r.lines <= lines + FetchedLines(tickers, fetch, i)
      && (r.outcome == Pass ==> r.lines == lines + FetchedLines(tickers, fetch, i))
    decreases |tickers| - i
  {
    if i < |tickers| {
      var rest := FetchedLines(tickers, fetch, i + 1);
      var slept := sleeps + fetch(i).sleeps;
      match fetch(i).series
      case None =>
        assert [] + rest == rest;
        DownloadFromLines(tickers, fetch, i + 1, lines, slept);
      case Some(series) =>
        var mine := EntryLines(tickers[i], series);
        PrefixAppend(lines, mine + rest, mine + rest);
        if series != [] {
          DownloadFromLines(tickers, fetch, i + 1, lines + mine, slept);
          AppendAssoc(lines, mine, rest);
          PrefixAppend(lines, mine, rest);
        }
    }
  }

  /** A run keeps the sleeps before it and adds at most the sleeps of the
      tickers, all of them when it passes. */
  lemma {:induction false} DownloadFromSleeps(tickers: seq<string>, fetch: nat -> Fetch, i: nat,
                                              lines: seq<string>, sleeps: seq<nat>)
    ensures var r := DownloadFrom(tickers, fetch, i, lines, sleeps);
      && sleeps <= r.sleeps
      && r.sleeps <= sleeps + AllSleeps(tickers, fetch, i)
      && (r.outcome == Pass ==> r.sleeps == sleeps + AllSleeps(tickers, fetch, i))
    decreases |tickers| - i
  {
    if i < |tickers| {
      var slept := fetch(i).sleeps;
      var rest := AllSleeps(tickers, fetch, i + 1);
      var lines' := if fetch(i).series.Some? then lines + EntryLines(tickers[i], fetch(i).series.value) else lines;
      AppendAssoc(sleeps, slept, rest);
      PrefixAppend(sleeps, slept, slept + rest);
      PrefixAppend(sleeps + slept, [], rest);
      if fetch(i).series != Some([]) {
        DownloadFromSleeps(tickers, fetch, i + 1, lines', sleeps + slept);
      }
    }
  }

  /** A run passes unless a fetched series is empty, and then stops on the
      malformed message. */
  lemma {:induction false} DownloadFromOutcome(tickers: seq<string>, fetch: nat -> Fetch, i: nat,
                                               lines: seq<string>, sleeps: seq<nat>)
    ensures var r := DownloadFrom(tickers, fetch, i, lines, sleeps);
      && (r.outcome == Pass <==> NoEmptySeries(tickers, fetch, i))
      && (r.outcome != Pass ==> r.outcome == Fail(MalformedMessage))
    decreases |tickers| - i
  {
    if i < |tickers| && fetch(i).series != Some([]) {
      var lines' := if fetch(i).series.Some? then lines + EntryLines(tickers[i], fetch(i).series.value) else lines;
      DownloadFromOutcome(tickers, fetch, i + 1, lines', sleeps + fetch(i).sleeps);
    }
  }

  /** x is the line of entry k of a fetched series of ticker j >= i. */
  predicate LineOf(tickers: seq<string>, fetch: nat -> Fetch, i: nat, x: string) {
    exists j, k :: i <= j < |tickers| && fetch(j).series.Some? && 0 <= k < |fetch(j).series.value| &&
      x == CsvLine(tickers[j], fetch(j).series.value[k])
  }

  /** The fetched lines are the lines of the entries of the fetched series. */
  lemma {:induction false} FetchedLinesMembers(tickers: seq<string>, fetch: nat -> Fetch, i: nat)
    ensures forall x :: x in FetchedLines(tickers, fetch, i) <==> LineOf(tickers, fetch, i, x)
    decreases |tickers| - i
  {
    if i < |tickers| {
      FetchedLinesMembers(tickers, fetch, i + 1);
      var f := fetch(i);
      if f.series.Some? {
        EntryLinesSpec(tickers[i], f.series.value);
      }
      forall x ensures x in FetchedLines(tickers, fetch, i) <==> LineOf(tickers, fetch, i, x) {
        if LineOf(tickers, fetch, i, x) {
          var j, k :| i <= j < |tickers| && fetch(j).series.Some? && 0 <= k < |fetch(j).series.value| &&
            x == CsvLine(tickers[j], fetch(j).series.value[k]);
          if j == i {
            assert EntryLines(tickers[i], f.series.value)[k] == x;
          } else {
            assert LineOf(tickers, fetch, i + 1, x);
          }
        }
      }
    }
  }

  /** A backoff sleep: 10, 100, 1000 or 10000 seconds. */
  predicate BackoffSleep(x: nat) {
    exists k :: 1 <= k < MaxRequestTries && x == Pow10(k)
  }

  /** Every sleep of one ticker's retry loop is a backoff sleep, and there are
      at most four. */
  lemma SleepsBackoff(server: (nat, nat) -> Response, i: nat)
    ensures |Sleeps(server, i)| < MaxRequestTries
    ensures forall x :: x in Sleeps(server, i) ==> BackoffSleep(x)
  {
    SleepsSpec(server, i);
    forall x | x in Sleeps(server, i) ensures BackoffSleep(x) {
      var k :| 1 <= k < Tries(server, i) && k < MaxRequestTries && server(i, k).RateLimited? && x == Pow10(k);
    }
  }

  /** Every sleep of the retry loop is a backoff sleep. */
  lemma FetchesBackoff(server: (nat, nat) -> Response)
    ensures forall j: nat, x :: x in Fetches(server)(j).sleeps ==> BackoffSleep(x)
  {
    forall j: nat, x | x in Fetches(server)(j).sleeps ensures BackoffSleep(x) {
      assert Fetches(server)(j) == FetchTicker(server, j);
    }
  }

  lemma {:induction false} AllSleepsBackoff(tickers: seq<string>, fetch: nat -> Fetch, i: nat)
    requires forall j: nat, x :: x in fetch(j).sleeps ==> BackoffSleep(x)
    ensures forall x :: x in AllSleeps(tickers, fetch, i) ==> BackoffSleep(x)
    decreases |tickers| - i
  {
    if i < |tickers| {
      AllSleepsBackoff(tickers, fetch, i + 1);
    }
  }

  /** The output file starts with the header and holds, after it, only lines of
      entries of fetched series; it holds all of them, in ticker and series
      order, when the command passes. */
  lemma DownloadLines(file: string, server: (nat, nat) -> Response)
    ensures var r := Download(Some(file), true, server);
      && |r.lines| >= 1 && r.lines[0] == Header
      && (forall x :: x in r.lines[1..] ==> LineOf(Tickers(file), Fetches(server), 0, x))
      && (r.outcome == Pass ==> r.lines == [Header] + FetchedLines(Tickers(file), Fetches(server), 0))
  {
    var tickers := Tickers(file);
    var r := DownloadFrom(tickers, Fetches(server), 0, [Header], []);
    assert Download(Some(file), true, server) == r;
    DownloadFromLines(tickers, Fetches(server), 0, [Header], []);
    FetchedLinesMembers(tickers, Fetches(server), 0);
    assert r.lines[1..] <= FetchedLines(tickers, Fetches(server), 0);
  }

  /** The command sleeps only 10, 100, 1000 or 10000 seconds at a time. */
  lemma DownloadSleeps(file: string, server: (nat, nat) -> Response)
    ensures forall x :: x in Download(Some(file), true, server).sleeps ==> BackoffSleep(x)
  {
    var tickers := Tickers(file);
    var fetch := Fetches(server);
    assert Download(Some(file), true, server) == DownloadFrom(tickers, fetch, 0, [Header], []);
    DownloadFromSleeps(tickers, fetch, 0, [Header], []);
    FetchesBackoff(server);
    AllSleepsBackoff(tickers, fetch, 0);
    assert [] + AllSleeps(tickers, fetch, 0) == AllSleeps(tickers, fetch, 0);
  }

  /** The command passes exactly when no ticker's fetched series is empty. */
  lemma DownloadOutcome(file: string, server: (nat, nat) -> Response)
    ensures var r := Download(Some(file), true, server);
      && (r.outcome == Pass <==>
            forall j :: 0 <= j < |Tickers(file)| && Fetched(server, j) ==> Series(server, j) != [])
      && (r.outcome != Pass ==> r.outcome == Fail(MalformedMessage))
  {
    var tickers := Tickers(file);
    var fetch := Fetches(server);
    assert Download(Some(file), true, server) == DownloadFrom(tickers, fetch, 0, [Header], []);
    DownloadFromOutcome(tickers, fetch, 0, [Header], []);
    NoEmptySeriesFetched(tickers, server);
  }

  /** Without the ticker file the command stops at once; without the output
      file it stops at the header, before any request, writing nothing. */
  lemma DownloadGuards(tickerFile: Option<string>, hasOutputFile: bool, server: (nat, nat) -> Response)
    ensures tickerFile.None? ==> Download(tickerFile, hasOutputFile, server).outcome == Fail(MissingTickerFile)
    ensures tickerFile.Some? && !hasOutputFile ==>
      Download(tickerFile, hasOutputFile, server) == DownloadRun([], [], Fail(MissingOutputFile))
    ensures Download(tickerFile, hasOutputFile, server).outcome == Pass ==> tickerFile.Some? && hasOutputFile
  {
    if tickerFile.Some? && hasOutputFile {
      DownloadOutcome(tickerFile.value, server);
    }
  }

  lemma NoEmptySeriesFetched(tickers: seq<string>, server: (nat, nat) -> Response)
    ensures NoEmptySeries(tickers, Fetches(server), 0) <==>
      forall j :: 0 <= j < |tickers| && Fetched(server, j) ==> Series(server, j) != []
  {
    forall j | 0 <= j < |tickers|
      ensures Fetches(server)(j).series != Some([]) <==> (Fetched(server, j) ==> Series(server, j) != [])
    {
      assert Fetches(server)(j) == FetchTicker(server, j);
    }
  }

  // ---------------------------------------------------------------------------
  // create_exchange
  // ---------------------------------------------------------------------------

  /** create_exchange: refuses a symbol already in use, else creates the
      exchange. */
  method CreateExchangeCommand(store: Store, exchangeSymbol: string, title: string) returns (r: Outcome<CommandError>)
    requires store.Valid()
    modifies store
    ensures store.Valid()
    ensures SymbolTaken(old(store.Snapshot()), exchangeSymbol) ==>
      r == Fail(ExchangeExists) && store.Snapshot() == old(store.Snapshot())
    ensures !SymbolTaken(old(store.Snapshot()), exchangeSymbol) ==>
      r == Pass && Success(store.Snapshot()) == InsertExchange(old(store.Snapshot()), Exchange(exchangeSymbol, title))
  {
    if SymbolTaken(store.Snapshot(), exchangeSymbol) {
      return Fail(ExchangeExists);
    }
    var created := store.CreateExchange(exchangeSymbol, title);
    r := Pass;
  }

  // ---------------------------------------------------------------------------
  // import_stocks_and_monthly_prices
  // ---------------------------------------------------------------------------

  /** The price row of one series entry for stock `stockId`: its date, then its
      adjusted close, each of which may raise. */
  function ParseEntry(e: MonthlyEntry, stockId: int): Result<MonthlyPrice, CommandError> {
    match ParseCloseAt(e.closeAt)
    case Failure(err) => Failure(err)
    case Success(d) =>
      match ParseDecimal(e.adjustedClose)
      case Failure(err) => Failure(err)
      case Success(price) => Success(MonthlyPrice(stockId, d, price))
  }

  /** The price rows of a series, in series order; the first entry that does
      not parse stops the command. */
  function ParseEntries(entries: seq<MonthlyEntry>, stockId: int): Result<seq<MonthlyPrice>, CommandError>
    decreases |entries|
  {
    if entries == [] then Success([])
    else
      match ParseEntries(entries[..|entries| - 1], stockId)
      case Failure(err) => Failure(err)
      case Success(batch) =>
        match ParseEntry(entries[|entries| - 1], stockId)
        case Failure(err) => Failure(err)
        case Success(p) => Success(batch + [p])
  }

  /** The series parses exactly when every entry does, into one row per entry
      in series order. */
  lemma {:induction false} ParseEntriesSpec(entries: seq<MonthlyEntry>, stockId: int)
    ensures ParseEntries(entries, stockId).Success? <==>
      forall j :: 0 <= j < |entries| ==> ParseEntry(entries[j], stockId).Success?
    ensures ParseEntries(entries, stockId).Success? ==>
      var batch := ParseEntries(entries, stockId).value;
      && |batch| == |entries|
      && forall j :: 0 <= j < |entries| ==> Success(batch[j]) == ParseEntry(entries[j], stockId)
    decreases |entries|
  {
    if entries != [] {
      var n := |entries| - 1;
      var init := entries[..n];
      ParseEntriesSpec(init, stockId);
      assert forall j :: 0 <= j < n ==> init[j] == entries[j];
      if ParseEntries(entries, stockId).Success? {
        var batch := ParseEntries(init, stockId).value;
        assert ParseEntries(entries, stockId).value == batch + [ParseEntry(entries[n], stockId).value];
      }
    }
  }

  /** A series that does not parse stops on a bad date or a bad price. */
  lemma {:induction false} ParseEntriesErrors(entries: seq<MonthlyEntry>, stockId: int)
    ensures ParseEntries(entries, stockId).Failure? ==>
      ParseEntries(entries, stockId).error == BadDate || ParseEntries(entries, stockId).error == BadPrice
    decreases |entries|
  {
    if entries != [] {
      ParseEntriesErrors(entries[..|entries| - 1], stockId);
    }
  }

  /** Once a prefix of the series fails, every longer prefix fails the same way. */
  lemma {:induction false} ParseEntriesStop(entries: seq<MonthlyEntry>, stockId: int, j: nat, k: nat)
    requires j <= k <= |entries|
    requires ParseEntries(entries[..j], stockId).Failure?
    ensures ParseEntries(entries[..k], stockId) == ParseEntries(entries[..j], stockId)
    decreases k - j
  {
    if j < k {
      ParseEntriesStop(entries, stockId, j, k - 1);
      assert entries[..k][..k - 1] == entries[..k - 1];
    }
  }

  /** The loop over the series entries. */
  method ParseSeries(entries: seq<MonthlyEntry>, stockId: int) returns (r: Result<seq<MonthlyPrice>, CommandError>)
    ensures r == ParseEntries(entries, stockId)
  {
    var batch := [];
    for j := 0 to |entries|
      invariant ParseEntries(entries[..j], stockId) == Success(batch)
    {
      assert entries[..j + 1][..j] == entries[..j];
      var closeAt := ParseCloseAt(entries[j].closeAt);
      if closeAt.Failure? {
        ParseEntriesStop(entries, stockId, j + 1, |entries|);
        assert entries[..|entries|] == entries;
        return Failure(closeAt.error);
      }
      var price := ParseDecimal(entries[j].adjustedClose);
      if price.Failure? {
        ParseEntriesStop(entries, stockId, j + 1, |entries|);
        assert entries[..|entries|] == entries;
        return Failure(price.error);
      }
      batch := batch + [MonthlyPrice(stockId, closeAt.value, price.value)];
    }
    assert entries[..|entries|] == entries;
    r := Success(batch);
  }

  /** A parsed series has one row per entry, each of the stock it was parsed
      for. */
  lemma {:induction false} ParseEntriesStock(entries: seq<MonthlyEntry>, stockId: int)
    ensures ParseEntries(entries, stockId).Success? ==> |ParseEntries(entries, stockId).value| == |entries|
    ensures ParseEntries(entries, stockId).Success? ==>
      forall j :: 0 <= j < |ParseEntries(entries, stockId).value| ==> ParseEntries(entries, stockId).value[j].stockId == stockId
    decreases |entries|
  {
    if entries != [] {
      ParseEntriesStock(entries[..|entries| - 1], stockId);
    }
  }

  /** A parsed entry is a price of the stock, dated by its key and priced by its
      adjusted close. */
  lemma ParseEntrySpec(e: MonthlyEntry, stockId: int)
    ensures ParseEntry(e, stockId).Success? <==>
      ParseCloseAt(e.closeAt).Success? && ParseDecimal(e.adjustedClose).Success?
    ensures ParseEntry(e, stockId).Success? ==>
      ParseEntry(e, stockId).value ==
        MonthlyPrice(stockId, ParseCloseAt(e.closeAt).value, ParseDecimal(e.adjustedClose).value)
    ensures ParseEntry(e, stockId).Failure? ==>
      ParseEntry(e, stockId).error == (if ParseCloseAt(e.closeAt).Failure? then BadDate else BadPrice)
  {
  }

  /** What a run of the import produced: the tables and how it ended. */
  datatype ImportRun = ImportRun(tables: Tables, outcome: Outcome<CommandError>)

  /** One ticker of the import. */
  function ImportOne(t: Tables, exchangeId: int, ticker: string, reply: Response, sector: Option<int>): ImportRun {
    if TickerTaken(t, exchangeId, ticker) then ImportRun(t, Fail(StockExists))
    else if !reply.TimeSeries? then ImportRun(t, Fail(NoTimeSeries))
    else CommitStock(t, exchangeId, ticker, sector, ParseEntries(reply.entries, t.nextId))
  }

  /** Stock.create, which commits the stock on its own, then the parsed series
      committed as one batch: a series that does not parse or does not commit
      leaves the stock without prices. */
  function CommitStock(t: Tables, exchangeId: int, ticker: string, sector: Option<int>,
                       parsed: Result<seq<MonthlyPrice>, CommandError>): ImportRun
  {
    match InsertStock(t, "", ticker, exchangeId, sector)
    case Failure(e) => ImportRun(t, Fail(Db(e)))
    case Success(t1) =>
      match parsed
      case Failure(e) => ImportRun(t1, Fail(e))
      case Success(batch) =>
        match InsertPrices(t1, batch)
        case Failure(e) => ImportRun(t1, Fail(Db(e)))
        case Success(t2) => ImportRun(t2, Pass)
  }

  /** The tickers from i on; the first one that fails stops the command. */
  function ImportFrom(t: Tables, exchangeId: int, tickers: seq<string>, replies: nat -> Response,
                      sector: Option<int>, i: nat): ImportRun
    decreases |tickers| - i
  {
    if i >= |tickers| then ImportRun(t, Pass)
    else
      var one := ImportOne(t, exchangeId, tickers[i], replies(i), sector);
      if one.outcome.Fail? then one else ImportFrom(one.tables, exchangeId, tickers, replies, sector, i + 1)
  }

  /** import_stocks_and_monthly_prices */
  ghost function Import(t: Tables, exchangeSymbol: string, tickerFile: Option<string>, replies: nat -> Response,
                        sector: Option<int>): ImportRun
  {
    if tickerFile.None? then ImportRun(t, Fail(MissingTickerFile))
    else
      match ExchangeWithSymbol(t, exchangeSymbol)
      case None => ImportRun(t, Fail(ExchangeNotFound))
      case Some(eid) => ImportFrom(t, eid, Tickers(tickerFile.value), replies, sector, 0)
  }

  /** One iteration of the ticker loop. */
  method ImportTicker(store: Store, exchangeId: int, ticker: string, reply: Response, sector: Option<int>)
    returns (r: Outcome<CommandError>)
    requires store.Valid()
    modifies store
    ensures store.Valid()
    ensures ImportRun(store.Snapshot(), r) == ImportOne(old(store.Snapshot()), exchangeId, ticker, reply, sector)
  {
    if TickerTaken(store.Snapshot(), exchangeId, ticker) {
      return Fail(StockExists);
    }
    if !reply.TimeSeries? {
      return Fail(NoTimeSeries);
    }
    var created := store.CreateStock("", ticker, exchangeId, sector);
    if created.Failure? {
      return Fail(Db(created.error));
    }
    var parsed := ParseSeries(reply.entries, created.value);
    if parsed.Failure? {
      return Fail(parsed.error);
    }
    var batch := parsed.value;
    var committed := store.AddPrices(batch);
    if committed.Fail? {
      return Fail(Db(committed.error));
    }
    r := Pass;
  }

  method ImportStocksAndMonthlyPrices(store: Store, exchangeSymbol: string, tickerFile: Option<string>,
                                      replies: nat -> Response, sector: Option<int>)
    returns (r: Outcome<CommandError>)
    requires store.Valid()
    modifies store
    ensures store.Valid()
    ensures ImportRun(store.Snapshot(), r) == Import(old(store.Snapshot()), exchangeSymbol, tickerFile, replies, sector)
  {
    if tickerFile.None? {
      return Fail(MissingTickerFile);
    }
    if !SymbolTaken(store.Snapshot(), exchangeSymbol) {
      return Fail(ExchangeNotFound);
    }
    var eid :| eid in store.exchanges && store.exchanges[eid].exchangeSymbol == exchangeSymbol;
    ExchangeWithSymbolUnique(store.Snapshot(), exchangeSymbol, eid);
    var tickers := Tickers(tickerFile.value);
    ghost var goal := ImportFrom(store.Snapshot(), eid, tickers, replies, sector, 0);
    var i := 0;
    while i < |tickers|
      invariant 0 <= i <= |tickers|
      invariant store.Valid()
      invariant goal == ImportFrom(store.Snapshot(), eid, tickers, replies, sector, i)
    {
      r := ImportTicker(store, eid, tickers[i], replies(i), sector);
      if r.Fail? {
        return;
      }
      i := i + 1;
    }
    r := Pass;
  }

  // ---------------------------------------------------------------------------
  // import_stocks_and_monthly_prices: what it does to the tables
  // ---------------------------------------------------------------------------

  /** Committing a stock and its series keeps the tables valid and keeps
      everything in them. */
  lemma CommitStockExtends(t: Tables, exchangeId: int, ticker: string, sector: Option<int>,
                           parsed: Result<seq<MonthlyPrice>, CommandError>)
    requires Consistent(t)
    ensures Consistent(CommitStock(t, exchangeId, ticker, sector, parsed).tables)
    ensures Extends(t, CommitStock(t, exchangeId, ticker, sector, parsed).tables)
  {
    InsertStockSpec(t, "", ticker, exchangeId, sector);
    if InsertStock(t, "", ticker, exchangeId, sector).Success? {
      var t1 := InsertStock(t, "", ticker, exchangeId, sector).value;
      assert Extends(t, t1);
      if parsed.Success? {
        InsertPricesSpec(t1, parsed.value);
      }
    }
  }

  /** The only stock a commit may add is the ticker's, under the next key; the
      only prices it may add are that stock's, and none when it fails. */
  lemma CommitStockAdds(t: Tables, exchangeId: int, ticker: string, sector: Option<int>,
                        parsed: Result<seq<MonthlyPrice>, CommandError>)
    requires KeysIssued(t)
    requires parsed.Success? ==> forall j :: 0 <= j < |parsed.value| ==> parsed.value[j].stockId == t.nextId
    ensures var r := CommitStock(t, exchangeId, ticker, sector, parsed);
      && (forall k :: k in r.tables.stocks && k !in t.stocks ==>
            k == t.nextId && sector.Some? && r.tables.stocks[k] == Stock("", ticker, exchangeId, sector.value))
      && (forall k :: k in r.tables.prices && k !in t.prices ==> r.tables.prices[k].stockId == t.nextId)
      && (r.outcome.Fail? ==> r.tables.prices == t.prices)
  {
    if InsertStock(t, "", ticker, exchangeId, sector).Success? {
      var t1 := InsertStock(t, "", ticker, exchangeId, sector).value;
      assert t1 == t.(stocks := t.stocks[t.nextId := Stock("", ticker, exchangeId, sector.value)], nextId := t.nextId + 1);
      if parsed.Success? {
        InsertPricesKeys(t1, parsed.value);
        if InsertPrices(t1, parsed.value).Success? {
          var r := InsertPrices(t1, parsed.value).value;
          forall k | k in r.prices && k !in t.prices ensures r.prices[k].stockId == t.nextId {
            var j := k - t1.nextId;
            assert r.prices[t1.nextId + j] == parsed.value[j];
          }
        }
      }
    }
  }

  /** With a sector and an exchange that exist, a commit passes exactly when
      the ticker is new on the exchange, the series parsed and no two of its
      rows fall on the same date. */
  lemma CommitStockPass(t: Tables, exchangeId: int, ticker: string, sector: Option<int>,
                        parsed: Result<seq<MonthlyPrice>, CommandError>)
    requires Consistent(t)
    requires parsed.Success? ==> forall j :: 0 <= j < |parsed.value| ==> parsed.value[j].stockId == t.nextId
    ensures CommitStock(t, exchangeId, ticker, sector, parsed).outcome == Pass <==>
      && sector.Some? && sector.value in t.sectors && exchangeId in t.exchanges
      && !TickerTaken(t, exchangeId, ticker)
      && parsed.Success? && DistinctDates(parsed.value)
  {
    InsertStockSpec(t, "", ticker, exchangeId, sector);
    if InsertStock(t, "", ticker, exchangeId, sector).Success? && parsed.Success? {
      var t1 := InsertStock(t, "", ticker, exchangeId, sector).value;
      forall k | k in t1.prices ensures t1.prices[k].stockId != t.nextId {
        assert t.prices[k].stockId in t.stocks;
      }
      InsertPricesOneStock(t1, parsed.value, t.nextId);
    }
  }

  /** A passing commit adds the stock and one price per row, in order, under
      the keys after the stock's. */
  lemma CommitStockPassAdds(t: Tables, exchangeId: int, ticker: string, sector: Option<int>,
                            parsed: Result<seq<MonthlyPrice>, CommandError>)
    requires KeysIssued(t)
    requires CommitStock(t, exchangeId, ticker, sector, parsed).outcome == Pass
    ensures sector.Some? && parsed.Success?
    ensures var r := CommitStock(t, exchangeId, ticker, sector, parsed).tables;
      && r.stocks == t.stocks[t.nextId := Stock("", ticker, exchangeId, sector.value)]
      && (forall k :: k in r.prices <==> k in t.prices || t.nextId < k <= t.nextId + |parsed.value|)
      && (forall j :: 0 <= j < |parsed.value| ==> r.prices[t.nextId + 1 + j] == parsed.value[j])
  {
    var t1 := InsertStock(t, "", ticker, exchangeId, sector).value;
    assert t1 == t.(stocks := t.stocks[t.nextId := Stock("", ticker, exchangeId, sector.value)], nextId := t.nextId + 1);
    InsertPricesKeys(t1, parsed.value);
    var r := InsertPrices(t1, parsed.value).value;
    forall j | 0 <= j < |parsed.value| ensures t.nextId + 1 + j in r.prices && r.prices[t.nextId + 1 + j] == parsed.value[j] {
      assert t.nextId + 1 + j == t1.nextId + j;
    }
  }

  /** One ticker keeps the tables valid and keeps everything in them. */
  lemma ImportOneExtends(t: Tables, exchangeId: int, ticker: string, reply: Response, sector: Option<int>)
    requires Consistent(t)
    ensures Consistent(ImportOne(t, exchangeId, ticker, reply, sector).tables)
    ensures Extends(t, ImportOne(t, exchangeId, ticker, reply, sector).tables)
  {
    if !TickerTaken(t, exchangeId, ticker) && reply.TimeSeries? {
      CommitStockExtends(t, exchangeId, ticker, sector, ParseEntries(reply.entries, t.nextId));
    }
  }

  /** The only stock one ticker may add is its own, under the next key; the
      only prices it may add are that stock's, and it adds none when it fails. */
  lemma ImportOneAdds(t: Tables, exchangeId: int, ticker: string, reply: Response, sector: Option<int>)
    requires KeysIssued(t)
    ensures var r := ImportOne(t, exchangeId, ticker, reply, sector);
      && (forall k :: k in r.tables.stocks && k !in t.stocks ==>
            k == t.nextId && sector.Some? && r.tables.stocks[k] == Stock("", ticker, exchangeId, sector.value))
      && (forall k :: k in r.tables.prices && k !in t.prices ==> r.tables.prices[k].stockId == t.nextId)
      && (r.outcome.Fail? ==> r.tables.prices == t.prices)
  {
    if !TickerTaken(t, exchangeId, ticker) && reply.TimeSeries? {
      ParseEntriesStock(reply.entries, t.nextId);
      CommitStockAdds(t, exchangeId, ticker, sector, ParseEntries(reply.entries, t.nextId));
    }
  }

  /** With a sector and an exchange that exist, one ticker passes exactly when
      it is new on the exchange, the reply has the series, every entry parses
      and no two entries fall on the same date. */
  lemma ImportOnePass(t: Tables, exchangeId: int, ticker: string, reply: Response, sector: Option<int>)
    requires Consistent(t)
    ensures ImportOne(t, exchangeId, ticker, reply, sector).outcome == Pass <==>
      && sector.Some? && sector.value in t.sectors && exchangeId in t.exchanges
      && !TickerTaken(t, exchangeId, ticker) && reply.TimeSeries?
      && ParseEntries(reply.entries, t.nextId).Success?
      && DistinctDates(ParseEntries(reply.entries, t.nextId).value)
  {
    if !TickerTaken(t, exchangeId, ticker) && reply.TimeSeries? {
      ParseEntriesStock(reply.entries, t.nextId);
      CommitStockPass(t, exchangeId, ticker, sector, ParseEntries(reply.entries, t.nextId));
    }
  }

  /** A passing ticker adds its stock and one price per series entry, in
      series order, under the keys after the stock's. */
  lemma ImportOnePassAdds(t: Tables, exchangeId: int, ticker: string, reply: Response, sector: Option<int>)
    requires KeysIssued(t)
    requires ImportOne(t, exchangeId, ticker, reply, sector).outcome == Pass
    ensures reply.TimeSeries? && sector.Some? && ParseEntries(reply.entries, t.nextId).Success?
    ensures var r := ImportOne(t, exchangeId, ticker, reply, sector).tables;
      var batch := ParseEntries(reply.entries, t.nextId).value;
      && r.stocks == t.stocks[t.nextId := Stock("", ticker, exchangeId, sector.value)]
      && |batch| == |reply.entries|
      && (forall k :: k in r.prices <==> k in t.prices || t.nextId < k <= t.nextId + |batch|)
      && (forall j :: 0 <= j < |batch| ==> r.prices[t.nextId + 1 + j] == batch[j])
  {
    ParseEntriesStock(reply.entries, t.nextId);
    CommitStockPassAdds(t, exchangeId, ticker, sector, ParseEntries(reply.entries, t.nextId));
  }

  /** As written: without a sector no ticker gets past the commit of its
      stock, so one ticker changes nothing and always fails. */
  lemma ImportOneWithoutSector(t: Tables, exchangeId: int, ticker: string, reply: Response)
    ensures ImportOne(t, exchangeId, ticker, reply, None).tables == t
    ensures ImportOne(t, exchangeId, ticker, reply, None).outcome.Fail?
    ensures !TickerTaken(t, exchangeId, ticker) && reply.TimeSeries? ==>
      ImportOne(t, exchangeId, ticker, reply, None).outcome == Fail(Db(NotNullViolation))
  {
  }

  /** The tickers from i on keep the tables valid, keep everything in them,
      and add only stocks of the exchange whose tickers are in the file. */
  lemma {:induction false} ImportFromKeeps(t: Tables, exchangeId: int, tickers: seq<string>, replies: nat -> Response,
                                           sector: Option<int>, i: nat)
    requires Consistent(t)
    ensures var r := ImportFrom(t, exchangeId, tickers, replies, sector, i).tables;
      && Consistent(r) && Extends(t, r)
      && (forall k :: k in r.stocks && k !in t.stocks ==>
            r.stocks[k].exchangeId == exchangeId && exists j :: i <= j < |tickers| && r.stocks[k].tickerSymbol == tickers[j])
    decreases |tickers| - i
  {
    if i < |tickers| {
      var one := ImportOne(t, exchangeId, tickers[i], replies(i), sector);
      var t1 := one.tables;
      ImportOneExtends(t, exchangeId, tickers[i], replies(i), sector);
      ImportOneAdds(t, exchangeId, tickers[i], replies(i), sector);
      if one.outcome.Pass? {
        ImportFromKeeps(t1, exchangeId, tickers, replies, sector, i + 1);
        var r := ImportFrom(t1, exchangeId, tickers, replies, sector, i + 1).tables;
        forall k | k in r.stocks && k !in t.stocks
          ensures r.stocks[k].exchangeId == exchangeId && exists j :: i <= j < |tickers| && r.stocks[k].tickerSymbol == tickers[j]
        {
          if k in t1.stocks {
            assert r.stocks[k] == t1.stocks[k];
          } else {
            var j :| i + 1 <= j < |tickers| && r.stocks[k].tickerSymbol == tickers[j];
          }
        }
      } else {
        forall k | k in t1.stocks && k !in t.stocks
          ensures t1.stocks[k].exchangeId == exchangeId && exists j :: i <= j < |tickers| && t1.stocks[k].tickerSymbol == tickers[j]
        {
          assert t1.stocks[k].tickerSymbol == tickers[i];
        }
      }
    }
  }

  /** When the tickers from i on pass, each was new on the exchange, no two
      were the same, and each is listed on the exchange afterwards. */
  lemma {:induction false} ImportFromPass(t: Tables, exchangeId: int, tickers: seq<string>, replies: nat -> Response,
                                          sector: Option<int>, i: nat)
    requires Consistent(t)
    ensures var r := ImportFrom(t, exchangeId, tickers, replies, sector, i);
      r.outcome == Pass ==>
        && (forall j :: i <= j < |tickers| ==>
              !TickerTaken(t, exchangeId, tickers[j]) && TickerTaken(r.tables, exchangeId, tickers[j]))
        && (forall j, k :: i <= j < k < |tickers| ==> tickers[j] != tickers[k])
    decreases |tickers| - i
  {
    var r := ImportFrom(t, exchangeId, tickers, replies, sector, i);
    if i < |tickers| && r.outcome == Pass {
      var one := ImportOne(t, exchangeId, tickers[i], replies(i), sector);
      var t1 := one.tables;
      ImportOneExtends(t, exchangeId, tickers[i], replies(i), sector);
      ImportOnePass(t, exchangeId, tickers[i], replies(i), sector);
      ImportOnePassAdds(t, exchangeId, tickers[i], replies(i), sector);
      ImportOneAdds(t, exchangeId, tickers[i], replies(i), sector);
      ImportFromKeeps(t1, exchangeId, tickers, replies, sector, i + 1);
      ImportFromPass(t1, exchangeId, tickers, replies, sector, i + 1);
      assert t1.stocks[t.nextId] == Stock("", tickers[i], exchangeId, sector.value);
      assert TickerTaken(t1, exchangeId, tickers[i]);
      assert r.tables.stocks[t.nextId] == t1.stocks[t.nextId];
      forall j | i < j < |tickers| ensures !TickerTaken(t, exchangeId, tickers[j]) && tickers[i] != tickers[j] {
        TickerTakenAfter(t, t1, exchangeId, tickers[j], tickers[i]);
      }
    }
  }

  /** An import that stopped at ticker j: the tickers before j are on the
      exchange, new stocks come from tickers i..j, and every new price belongs
      to the stock of a ticker before j. So ticker j kept at most its stock
      (committed on its own) and none of its prices. */
  predicate AbortedAt(t: Tables, r: ImportRun, exchangeId: int, tickers: seq<string>, i: nat, j: nat) {
    && i <= j < |tickers|
    && r.outcome.Fail?
    && (forall m :: i <= m < j ==> TickerTaken(r.tables, exchangeId, tickers[m]))
    && (forall k :: k in r.tables.stocks && k !in t.stocks ==>
          exists m :: i <= m <= j && r.tables.stocks[k].tickerSymbol == tickers[m])
    && (forall k :: k in r.tables.prices && k !in t.prices ==>
          && r.tables.prices[k].stockId in r.tables.stocks
          && r.tables.prices[k].stockId !in t.stocks
          && exists m :: i <= m < j && r.tables.stocks[r.tables.prices[k].stockId].tickerSymbol == tickers[m])
  }

  lemma {:induction false} ImportFromAbort(t: Tables, exchangeId: int, tickers: seq<string>, replies: nat -> Response,
                                           sector: Option<int>, i: nat)
    requires Consistent(t)
    requires ImportFrom(t, exchangeId, tickers, replies, sector, i).outcome.Fail?
    ensures exists j: nat :: AbortedAt(t, ImportFrom(t, exchangeId, tickers, replies, sector, i), exchangeId, tickers, i, j)
    decreases |tickers| - i
  {
    var r := ImportFrom(t, exchangeId, tickers, replies, sector, i);
    var one := ImportOne(t, exchangeId, tickers[i], replies(i), sector);
    ImportOneExtends(t, exchangeId, tickers[i], replies(i), sector);
    ImportOneAdds(t, exchangeId, tickers[i], replies(i), sector);
    if one.outcome.Fail? {
      assert r == one;
      assert AbortedAt(t, r, exchangeId, tickers, i, i);
    } else {
      var t1 := one.tables;
      assert r == ImportFrom(t1, exchangeId, tickers, replies, sector, i + 1);
      ImportFromAbort(t1, exchangeId, tickers, replies, sector, i + 1);
      var j: nat :| AbortedAt(t1, r, exchangeId, tickers, i + 1, j);
      ImportOnePassAdds(t, exchangeId, tickers[i], replies(i), sector);
      ImportFromKeeps(t1, exchangeId, tickers, replies, sector, i + 1);
      AbortedStep(t, t1, r, exchangeId, tickers, i, j, sector.value);
    }
  }

  /** One committed ticker ahead of an abort: if ticker i added its stock under
      the next key with only that stock's prices, an abort that keeps its
      promise from i + 1 on keeps it from i on. */
  lemma AbortedStep(t: Tables, t1: Tables, r: ImportRun, exchangeId: int, tickers: seq<string>, i: nat, j: nat, sectorId: int)
    requires i < |tickers|
    requires forall k :: k in t.stocks ==> k < t.nextId
    requires t1.stocks == t.stocks[t.nextId := Stock("", tickers[i], exchangeId, sectorId)]
    requires forall k :: k in t1.prices && k !in t.prices ==> t1.prices[k].stockId == t.nextId
    requires Extends(t1, r.tables)
    requires AbortedAt(t1, r, exchangeId, tickers, i + 1, j)
    ensures AbortedAt(t, r, exchangeId, tickers, i, j)
  {
    var rt := r.tables;
    assert rt.stocks[t.nextId] == t1.stocks[t.nextId];
    assert TickerTaken(rt, exchangeId, tickers[i]);
    forall k | k in rt.stocks && k !in t.stocks
      ensures exists m :: i <= m <= j && rt.stocks[k].tickerSymbol == tickers[m]
    {
      if k in t1.stocks {
        assert rt.stocks[k].tickerSymbol == tickers[i];
      } else {
        var m :| i + 1 <= m <= j && rt.stocks[k].tickerSymbol == tickers[m];
      }
    }
    forall k | k in rt.prices && k !in t.prices
      ensures && rt.prices[k].stockId in rt.stocks
              && rt.prices[k].stockId !in t.stocks
              && exists m :: i <= m < j && rt.stocks[rt.prices[k].stockId].tickerSymbol == tickers[m]
    {
      if k in t1.prices {
        assert rt.prices[k].stockId == t.nextId;
        assert rt.stocks[t.nextId].tickerSymbol == tickers[i];
      } else {
        var m :| i + 1 <= m < j && rt.stocks[rt.prices[k].stockId].tickerSymbol == tickers[m];
      }
    }
  }

  /** As written: without a sector the import changes no table, and it fails
      as soon as the file lists a ticker. */
  lemma {:induction false} ImportFromWithoutSector(t: Tables, exchangeId: int, tickers: seq<string>,
                                                   replies: nat -> Response, i: nat)
    ensures ImportFrom(t, exchangeId, tickers, replies, None, i).tables == t
    ensures i < |tickers| ==> ImportFrom(t, exchangeId, tickers, replies, None, i).outcome.Fail?
  {
    if i < |tickers| {
      ImportOneWithoutSector(t, exchangeId, tickers[i], replies(i));
    }
  }

  /** A reply the import can store: the series, whose entries all parse and
      fall on distinct dates, whatever key its stock gets. */
  ghost predicate Importable(reply: Response) {
    && reply.TimeSeries?
    && forall stockId :: ParseEntries(reply.entries, stockId).Success? && DistinctDates(ParseEntries(reply.entries, stockId).value)
  }

  /** After a step that adds only stocks of ticker y, a ticker taken on the
      exchange was taken before or is y. */
  lemma TickerTakenAfter(t: Tables, t1: Tables, exchangeId: int, x: string, y: string)
    requires Extends(t, t1)
    requires forall k :: k in t1.stocks && k !in t.stocks ==> t1.stocks[k].tickerSymbol == y
    ensures TickerTaken(t, exchangeId, x) ==> TickerTaken(t1, exchangeId, x)
    ensures TickerTaken(t1, exchangeId, x) ==> TickerTaken(t, exchangeId, x) || x == y
  {
    if TickerTaken(t, exchangeId, x) {
      var k :| k in t.stocks && t.stocks[k].exchangeId == exchangeId && t.stocks[k].tickerSymbol == x;
      assert t1.stocks[k] == t.stocks[k];
    }
  }

  /** With a sector, the import passes when every ticker is new on the
      exchange and listed once, and every reply can be stored. */
  lemma {:induction false} ImportFromSucceeds(t: Tables, exchangeId: int, tickers: seq<string>, replies: nat -> Response,
                                              sectorId: int, i: nat)
    requires Consistent(t) && exchangeId in t.exchanges && sectorId in t.sectors
    requires forall j :: i <= j < |tickers| ==> !TickerTaken(t, exchangeId, tickers[j])
    requires forall j, k :: i <= j < k < |tickers| ==> tickers[j] != tickers[k]
    requires forall j: nat :: i <= j < |tickers| ==> Importable(replies(j))
    ensures ImportFrom(t, exchangeId, tickers, replies, Some(sectorId), i).outcome == Pass
    decreases |tickers| - i
  {
    if i < |tickers| {
      var one := ImportOne(t, exchangeId, tickers[i], replies(i), Some(sectorId));
      var t1 := one.tables;
      assert Importable(replies(i));
      ImportOnePass(t, exchangeId, tickers[i], replies(i), Some(sectorId));
      ImportOneExtends(t, exchangeId, tickers[i], replies(i), Some(sectorId));
      ImportOneAdds(t, exchangeId, tickers[i], replies(i), Some(sectorId));
      forall j | i + 1 <= j < |tickers| ensures !TickerTaken(t1, exchangeId, tickers[j]) {
        TickerTakenAfter(t, t1, exchangeId, tickers[j], tickers[i]);
      }
      ImportFromSucceeds(t1, exchangeId, tickers, replies, sectorId, i + 1);
    }
  }

  /** The import keeps the tables valid and everything in them; the stocks it
      adds are on the exchange of the symbol and have tickers of the file. It
      stops at once, changing nothing, without a file or for an unknown
      symbol. */
  lemma ImportKeeps(t: Tables, exchangeSymbol: string, tickerFile: Option<string>, replies: nat -> Response,
                    sector: Option<int>)
    requires Consistent(t)
    ensures var r := Import(t, exchangeSymbol, tickerFile, replies, sector);
      && Consistent(r.tables) && Extends(t, r.tables)
      && (forall k :: k in r.tables.stocks && k !in t.stocks ==>
            && tickerFile.Some?
            && r.tables.stocks[k].exchangeId in t.exchanges
            && t.exchanges[r.tables.stocks[k].exchangeId].exchangeSymbol == exchangeSymbol
            && r.tables.stocks[k].tickerSymbol in Tickers(tickerFile.value))
      && (tickerFile.None? ==> r == ImportRun(t, Fail(MissingTickerFile)))
      && (tickerFile.Some? && !SymbolTaken(t, exchangeSymbol) ==> r == ImportRun(t, Fail(ExchangeNotFound)))
  {
    if tickerFile.Some? && SymbolTaken(t, exchangeSymbol) {
      var eid := ExchangeWithSymbol(t, exchangeSymbol).value;
      var tickers := Tickers(tickerFile.value);
      ImportFromKeeps(t, eid, tickers, replies, sector, 0);
      var r := ImportFrom(t, eid, tickers, replies, sector, 0).tables;
      forall k | k in r.stocks && k !in t.stocks ensures r.stocks[k].tickerSymbol in tickers {
        var j :| 0 <= j < |tickers| && r.stocks[k].tickerSymbol == tickers[j];
      }
    }
  }

  /** When the import passes, the exchange exists and every ticker of the file
      was new on it, is listed once in the file and is on it afterwards. */
  lemma ImportPass(t: Tables, exchangeSymbol: string, tickerFile: Option<string>, replies: nat -> Response,
                   sector: Option<int>)
    requires Consistent(t)
    requires Import(t, exchangeSymbol, tickerFile, replies, sector).outcome == Pass
    ensures tickerFile.Some? && SymbolTaken(t, exchangeSymbol)
    ensures var eid := ExchangeWithSymbol(t, exchangeSymbol).value;
      var tickers := Tickers(tickerFile.value);
      var r := Import(t, exchangeSymbol, tickerFile, replies, sector).tables;
      && (forall j :: 0 <= j < |tickers| ==> !TickerTaken(t, eid, tickers[j]) && TickerTaken(r, eid, tickers[j]))
      && (forall j, k :: 0 <= j < k < |tickers| ==> tickers[j] != tickers[k])
  {
    ImportFromPass(t, ExchangeWithSymbol(t, exchangeSymbol).value, Tickers(tickerFile.value), replies, sector, 0);
  }

  /** As written: with no sector given, the import never changes a table and
      fails whenever the file lists a ticker for a known exchange. */
  lemma ImportWithoutSector(t: Tables, exchangeSymbol: string, tickerFile: Option<string>, replies: nat -> Response)
    ensures Import(t, exchangeSymbol, tickerFile, replies, None).tables == t
    ensures tickerFile.Some? && SymbolTaken(t, exchangeSymbol) && Tickers(tickerFile.value) != [] ==>
      Import(t, exchangeSymbol, tickerFile, replies, None).outcome.Fail?
  {
    if tickerFile.Some? && SymbolTaken(t, exchangeSymbol) {
      ImportFromWithoutSector(t, ExchangeWithSymbol(t, exchangeSymbol).value, Tickers(tickerFile.value), replies, 0);
    }
  }

  /** Corrected: given an existing sector, the import of a file of new,
      distinct tickers whose replies can be stored passes. */
  lemma ImportWithSector(t: Tables, exchangeSymbol: string, file: string, replies: nat -> Response, sectorId: int)
    requires Consistent(t) && sectorId in t.sectors && SymbolTaken(t, exchangeSymbol)
    requires var tickers := Tickers(file);
      && (forall j :: 0 <= j < |tickers| ==> !TickerTaken(t, ExchangeWithSymbol(t, exchangeSymbol).value, tickers[j]))
      && (forall j, k :: 0 <= j < k < |tickers| ==> tickers[j] != tickers[k])
      && (forall j: nat :: j < |tickers| ==> Importable(replies(j)))
    ensures Import(t, exchangeSymbol, Some(file), replies, Some(sectorId)).outcome == Pass
  {
    ImportFromSucceeds(t, ExchangeWithSymbol(t, exchangeSymbol).value, Tickers(file), replies, sectorId, 0);
  }
}
