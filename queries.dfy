/** The year-to-year ranking of whatifstocks/stockanalysis/queries.py, as the
    relational function its SQL denotes: average each stock's yearly close prices
    in the two years, join stocks to their sector and to both averages, keep one
    exchange, compute the rounded percent change and order by it, descending.

    Tables are finite sequences of rows; `numeric` values are reals. */
module Queries {
  import opened Wrappers
  import Models

  // ---------------------------------------------------------------------------
  // Rows
  // ---------------------------------------------------------------------------

  /** A row of the stock table, with its primary key. */
  datatype StockRow = StockRow(id: int, title: string, tickerSymbol: string, exchangeId: int, industrySectorId: int)

  /** A row of the industry_sector table. */
  datatype SectorRow = SectorRow(id: int, title: string)

  /** A row of the stock yearly price table, with the columns the query reads. */
  datatype YearlyPrice = YearlyPrice(stockId: int, closeAt: Models.Date, closePrice: real)

  /** One result row: the stock, its sector, the two rounded averages and the
      rounded percent change. */
  datatype ResultRow = ResultRow(stock: StockRow, sector: SectorRow, avgFrom: real, avgTo: real, changePercent: real)

  // ---------------------------------------------------------------------------
  // Arithmetic
  // ---------------------------------------------------------------------------

  /** ROUND(x, 2) on numeric: to the nearest hundredth, halves away from zero. */
  function Round2(x: real): real {
    if x >= 0.0 then ((x * 100.0 + 0.5).Floor as real) / 100.0
    else -(((-x * 100.0 + 0.5).Floor as real) / 100.0)
  }

  /** The divisor of the percent change: the from-average, or 0.01 in its place
      when that average is 0. */
  function Guard(x: real): (d: real)
    ensures d != 0.0
    ensures x != 0.0 ==> d == x
  {
    if x == 0.0 then 0.01 else x
  }

  /** price_change_percent, from the unrounded averages. */
  function PercentChange(avgFrom: real, avgTo: real): real {
    Round2((avgTo - avgFrom) / Guard(avgFrom) * 100.0)
  }

  /** Rounding moves a value by at most half a hundredth. */
  lemma Round2Close(x: real)
    ensures -0.005 <= Round2(x) - x <= 0.005
  {
    if x >= 0.0 {
      var y := x * 100.0 + 0.5;
      assert y - 1.0 < y.Floor as real <= y;
    } else {
      var y := -x * 100.0 + 0.5;
      assert y - 1.0 < y.Floor as real <= y;
    }
  }

  /** The rounded value is a whole number of hundredths. */
  lemma Round2Hundredths(x: real)
    ensures Round2(x) * 100.0 == (Round2(x) * 100.0).Floor as real
  {
    if x >= 0.0 {
      var n := (x * 100.0 + 0.5).Floor;
      assert Round2(x) * 100.0 == n as real;
    } else {
      var n := (-x * 100.0 + 0.5).Floor;
      assert Round2(x) * 100.0 == (-n) as real;
    }
  }

  /** Rounding keeps order, and 0 stays 0. */
  lemma Round2Monotone(x: real, y: real)
    requires x <= y
    ensures Round2(x) <= Round2(y)
    ensures Round2(0.0) == 0.0
  {
    assert (0.0 * 100.0 + 0.5).Floor == 0;
    if 0.0 <= x {
      FloorMonotone(x * 100.0 + 0.5, y * 100.0 + 0.5);
    } else if y < 0.0 {
      FloorMonotone(-y * 100.0 + 0.5, -x * 100.0 + 0.5);
    } else {
      assert (-x * 100.0 + 0.5).Floor >= 0;
      assert (y * 100.0 + 0.5).Floor >= 0;
    }
  }

  lemma FloorMonotone(a: real, b: real)
    requires a <= b
    ensures a.Floor <= b.Floor
  {
    assert a.Floor as real <= a <= b < b.Floor as real + 1.0;
  }

  /** Against a positive from-average, the sign of the percent change is the
      sign of the price move: a rise is never ranked below 0, a fall never
      above it, and an unchanged price gives 0. */
  lemma PercentChangeSign(avgFrom: real, avgTo: real)
    requires avgFrom > 0.0
    ensures avgTo >= avgFrom ==> PercentChange(avgFrom, avgTo) >= 0.0
    ensures avgTo <= avgFrom ==> PercentChange(avgFrom, avgTo) <= 0.0
    ensures avgTo == avgFrom ==> PercentChange(avgFrom, avgTo) == 0.0
  {
    var q := (avgTo - avgFrom) / avgFrom * 100.0;
    if avgTo >= avgFrom {
      assert (avgTo - avgFrom) / avgFrom >= 0.0;
      Round2Monotone(0.0, q);
    }
    if avgTo <= avgFrom {
      assert (avgTo - avgFrom) / avgFrom <= 0.0;
      Round2Monotone(q, 0.0);
    }
  }

  /** A from-average of 0 is divided as if it were 0.01. */
  lemma PercentChangeFromZero(avgTo: real)
    ensures PercentChange(0.0, avgTo) == Round2(avgTo * 10000.0)
  {
    assert (avgTo - 0.0) / 0.01 * 100.0 == avgTo * 10000.0;
  }

  // ---------------------------------------------------------------------------
  // The yearly averages (the prices_from and prices_to subqueries)
  // ---------------------------------------------------------------------------

  /** Whether a price row is one of the stock's rows in the year. */
  predicate InYear(p: YearlyPrice, year: int, stockId: int) {
    p.stockId == stockId && p.closeAt.year == year
  }

  /** The close prices of the stock's rows in the year, in table order. */
  function Selected(prices: seq<YearlyPrice>, year: int, stockId: int): seq<real>
    decreases |prices|
  {
    if prices == [] then []
    else
      var last := prices[|prices| - 1];
      Selected(prices[..|prices| - 1], year, stockId) + (if InYear(last, year, stockId) then [last.closePrice] else [])
  }

  function Sum(xs: seq<real>): real
    decreases |xs|
  {
    if xs == [] then 0.0 else Sum(xs[..|xs| - 1]) + xs[|xs| - 1]
  }

  /** avg(close_price) over a group of at least one row. */
  function Mean(xs: seq<real>): real
    requires |xs| > 0
  {
    Sum(xs) / (|xs| as real)
  }

  /** The stock's average close price in the year, or None when the subquery
      has no group for it. */
  function AvgPrice(prices: seq<YearlyPrice>, year: int, stockId: int): Option<real> {
    var xs := Selected(prices, year, stockId);
    if xs == [] then None else Some(Mean(xs))
  }

  /** The values averaged are exactly the close prices of the stock's rows in
      the year. */
  lemma {:induction false} SelectedMembers(prices: seq<YearlyPrice>, year: int, stockId: int)
    ensures forall x :: x in Selected(prices, year, stockId) <==>
      exists k :: 0 <= k < |prices| && InYear(prices[k], year, stockId) && prices[k].closePrice == x
    decreases |prices|
  {
    if prices != [] {
      var init := prices[..|prices| - 1];
      SelectedMembers(init, year, stockId);
      forall x ensures x in Selected(prices, year, stockId) <==>
        exists k :: 0 <= k < |prices| && InYear(prices[k], year, stockId) && prices[k].closePrice == x
      {
        if exists k :: 0 <= k < |prices| && InYear(prices[k], year, stockId) && prices[k].closePrice == x {
          var k :| 0 <= k < |prices| && InYear(prices[k], year, stockId) && prices[k].closePrice == x;
          if k < |init| {
            assert init[k] == prices[k];
          }
        }
        if x in Selected(init, year, stockId) {
          var k :| 0 <= k < |init| && InYear(init[k], year, stockId) && init[k].closePrice == x;
          assert prices[k] == init[k];
        }
      }
    }
  }

  /** Each close price is averaged as many times as the stock has rows in the
      year at that price: avg counts repeated prices. */
  lemma SelectedCount(prices: seq<YearlyPrice>, year: int, stockId: int, x: real)
    ensures multiset(Selected(prices, year, stockId))[x] ==
      |set k | 0 <= k < |prices| && InYear(prices[k], year, stockId) && prices[k].closePrice == x|
  {
    SelectedCountUpTo(prices, year, stockId, x, |prices|);
    assert prices[..|prices|] == prices;
  }

  lemma {:induction false} SelectedCountUpTo(prices: seq<YearlyPrice>, year: int, stockId: int, x: real, n: nat)
    requires n <= |prices|
    ensures multiset(Selected(prices[..n], year, stockId))[x] ==
      |set k | 0 <= k < n && InYear(prices[k], year, stockId) && prices[k].closePrice == x|
    decreases n
  {
    var rows := set k | 0 <= k < n && InYear(prices[k], year, stockId) && prices[k].closePrice == x;
    if n == 0 {
      assert rows == {};
    } else {
      SelectedCountUpTo(prices, year, stockId, x, n - 1);
      RowsStep(prices, year, stockId, x, n);
      var p := prices[n - 1];
      assert prices[..n][..n - 1] == prices[..n - 1];
      var tail := if InYear(p, year, stockId) then [p.closePrice] else [];
      assert multiset(Selected(prices[..n], year, stockId))
          == multiset(Selected(prices[..n - 1], year, stockId)) + multiset(tail);
    }
  }

  /** The rows of the first n at price x: those of the first n - 1, and row
      n - 1 when it is one. */
  lemma RowsStep(prices: seq<YearlyPrice>, year: int, stockId: int, x: real, n: nat)
    requires 0 < n <= |prices|
    ensures |set k | 0 <= k < n && InYear(prices[k], year, stockId) && prices[k].closePrice == x| ==
      |set k | 0 <= k < n - 1 && InYear(prices[k], year, stockId) && prices[k].closePrice == x|
      + (if InYear(prices[n - 1], year, stockId) && prices[n - 1].closePrice == x then 1 else 0)
  {
    var rows := set k | 0 <= k < n && InYear(prices[k], year, stockId) && prices[k].closePrice == x;
    var before := set k | 0 <= k < n - 1 && InYear(prices[k], year, stockId) && prices[k].closePrice == x;
    if InYear(prices[n - 1], year, stockId) && prices[n - 1].closePrice == x {
      assert rows == before + {n - 1};
    } else {
      assert rows == before;
    }
  }

  /** A stock has an average in the year exactly when it has a price row there. */
  lemma AvgPricePresent(prices: seq<YearlyPrice>, year: int, stockId: int)
    ensures AvgPrice(prices, year, stockId).Some? <==>
      exists k :: 0 <= k < |prices| && InYear(prices[k], year, stockId)
  {
    SelectedMembers(prices, year, stockId);
    var xs := Selected(prices, year, stockId);
    if exists k :: 0 <= k < |prices| && InYear(prices[k], year, stockId) {
      var k :| 0 <= k < |prices| && InYear(prices[k], year, stockId);
      assert prices[k].closePrice in xs;
    }
    if xs != [] {
      assert xs[0] in xs;
      var k :| 0 <= k < |prices| && InYear(prices[k], year, stockId) && prices[k].closePrice == xs[0];
      assert AvgPrice(prices, year, stockId).Some?;
    }
  }

  lemma {:induction false} SumBounds(xs: seq<real>, lo: real, hi: real)
    requires forall k :: 0 <= k < |xs| ==> lo <= xs[k] <= hi
    ensures lo * (|xs| as real) <= Sum(xs) <= hi * (|xs| as real)
    decreases |xs|
  {
    if xs != [] {
      var init := xs[..|xs| - 1];
      assert forall k :: 0 <= k < |init| ==> init[k] == xs[k];
      SumBounds(init, lo, hi);
      assert lo * (|xs| as real) == lo * (|init| as real) + lo;
      assert hi * (|xs| as real) == hi * (|init| as real) + hi;
    }
  }

  /** The average lies between any bounds of the prices averaged. */
  lemma MeanBounds(xs: seq<real>, lo: real, hi: real)
    requires |xs| > 0
    requires forall k :: 0 <= k < |xs| ==> lo <= xs[k] <= hi
    ensures lo <= Mean(xs) <= hi
  {
    SumBounds(xs, lo, hi);
    var n := |xs| as real;
    assert Sum(xs) / n >= lo by {
      assert Sum(xs) >= lo * n;
    }
    assert Sum(xs) / n <= hi by {
      assert Sum(xs) <= hi * n;
    }
  }

  /** A stock that closed at the same price every month of the year averages
      exactly that price. */
  lemma AvgPriceConstant(prices: seq<YearlyPrice>, year: int, stockId: int, c: real)
    requires exists k :: 0 <= k < |prices| && InYear(prices[k], year, stockId)
    requires forall k :: 0 <= k < |prices| && InYear(prices[k], year, stockId) ==> prices[k].closePrice == c
    ensures AvgPrice(prices, year, stockId) == Some(c)
  {
    AvgPricePresent(prices, year, stockId);
    SelectedMembers(prices, year, stockId);
    var xs := Selected(prices, year, stockId);
    forall k | 0 <= k < |xs| ensures c <= xs[k] <= c {
      assert xs[k] in xs;
    }
    MeanBounds(xs, c, c);
  }

  // ---------------------------------------------------------------------------
  // The join, the filter and the result columns
  // ---------------------------------------------------------------------------

  /** Whether stock s, sector z and both averages join, on the requested exchange. */
  predicate Joins(s: StockRow, z: SectorRow, prices: seq<YearlyPrice>, exchangeId: int, fromYear: int, toYear: int) {
    && z.id == s.industrySectorId
    && AvgPrice(prices, fromYear, s.id).Some?
    && AvgPrice(prices, toYear, s.id).Some?
    && s.exchangeId == exchangeId
  }

  /** The selected row for a joined stock and sector. */
  function RowOf(s: StockRow, z: SectorRow, prices: seq<YearlyPrice>, fromYear: int, toYear: int): ResultRow
    requires AvgPrice(prices, fromYear, s.id).Some? && AvgPrice(prices, toYear, s.id).Some?
  {
    var f := AvgPrice(prices, fromYear, s.id).value;
    var t := AvgPrice(prices, toYear, s.id).value;
    ResultRow(s, z, Round2(f), Round2(t), PercentChange(f, t))
  }

  /** The joined rows of one stock, one per matching sector row. */
  function RowsOfStock(s: StockRow, sectors: seq<SectorRow>, prices: seq<YearlyPrice>,
                       exchangeId: int, fromYear: int, toYear: int): seq<ResultRow>
    decreases |sectors|
  {
    if sectors == [] then []
    else
      var z := sectors[|sectors| - 1];
      RowsOfStock(s, sectors[..|sectors| - 1], prices, exchangeId, fromYear, toYear)
      + (if Joins(s, z, prices, exchangeId, fromYear, toYear) then [RowOf(s, z, prices, fromYear, toYear)] else [])
  }

  /** The rows of the join and the WHERE clause, before GROUP BY and ORDER BY. */
  function Joined(stocks: seq<StockRow>, sectors: seq<SectorRow>, prices: seq<YearlyPrice>,
                  exchangeId: int, fromYear: int, toYear: int): seq<ResultRow>
    decreases |stocks|
  {
    if stocks == [] then []
    else
      Joined(stocks[..|stocks| - 1], sectors, prices, exchangeId, fromYear, toYear)
      + RowsOfStock(stocks[|stocks| - 1], sectors, prices, exchangeId, fromYear, toYear)
  }

  lemma {:induction false} RowsOfStockMembers(s: StockRow, sectors: seq<SectorRow>, prices: seq<YearlyPrice>,
                                              exchangeId: int, fromYear: int, toYear: int)
    ensures forall r :: r in RowsOfStock(s, sectors, prices, exchangeId, fromYear, toYear) <==>
      exists j :: 0 <= j < |sectors| && Joins(s, sectors[j], prices, exchangeId, fromYear, toYear)
                  && r == RowOf(s, sectors[j], prices, fromYear, toYear)
    decreases |sectors|
  {
    if sectors != [] {
      var init := sectors[..|sectors| - 1];
      RowsOfStockMembers(s, init, prices, exchangeId, fromYear, toYear);
      forall r ensures r in RowsOfStock(s, sectors, prices, exchangeId, fromYear, toYear) <==>
        exists j :: 0 <= j < |sectors| && Joins(s, sectors[j], prices, exchangeId, fromYear, toYear)
                    && r == RowOf(s, sectors[j], prices, fromYear, toYear)
      {
        if exists j :: 0 <= j < |sectors| && Joins(s, sectors[j], prices, exchangeId, fromYear, toYear)
                       && r == RowOf(s, sectors[j], prices, fromYear, toYear) {
          var j :| 0 <= j < |sectors| && Joins(s, sectors[j], prices, exchangeId, fromYear, toYear)
                   && r == RowOf(s, sectors[j], prices, fromYear, toYear);
          if j < |init| {
            assert init[j] == sectors[j];
          }
        }
        if r in RowsOfStock(s, init, prices, exchangeId, fromYear, toYear) {
          var j :| 0 <= j < |init| && Joins(s, init[j], prices, exchangeId, fromYear, toYear)
                   && r == RowOf(s, init[j], prices, fromYear, toYear);
          assert sectors[j] == init[j];
        }
      }
    }
  }

  lemma {:induction false} JoinedMembers(stocks: seq<StockRow>, sectors: seq<SectorRow>, prices: seq<YearlyPrice>,
                                         exchangeId: int, fromYear: int, toYear: int)
    ensures forall r :: r in Joined(stocks, sectors, prices, exchangeId, fromYear, toYear) <==>
      exists i, j :: 0 <= i < |stocks| && 0 <= j < |sectors|
                     && Joins(stocks[i], sectors[j], prices, exchangeId, fromYear, toYear)
                     && r == RowOf(stocks[i], sectors[j], prices, fromYear, toYear)
    decreases |stocks|
  {
    if stocks != [] {
      var init := stocks[..|stocks| - 1];
      var s := stocks[|stocks| - 1];
      JoinedMembers(init, sectors, prices, exchangeId, fromYear, toYear);
      RowsOfStockMembers(s, sectors, prices, exchangeId, fromYear, toYear);
      forall r ensures r in Joined(stocks, sectors, prices, exchangeId, fromYear, toYear) <==>
        exists i, j :: 0 <= i < |stocks| && 0 <= j < |sectors|
                       && Joins(stocks[i], sectors[j], prices, exchangeId, fromYear, toYear)
                       && r == RowOf(stocks[i], sectors[j], prices, fromYear, toYear)
      {
        if exists i, j :: 0 <= i < |stocks| && 0 <= j < |sectors|
                          && Joins(stocks[i], sectors[j], prices, exchangeId, fromYear, toYear)
                          && r == RowOf(stocks[i], sectors[j], prices, fromYear, toYear) {
          var i, j :| 0 <= i < |stocks| && 0 <= j < |sectors|
                      && Joins(stocks[i], sectors[j], prices, exchangeId, fromYear, toYear)
                      && r == RowOf(stocks[i], sectors[j], prices, fromYear, toYear);
          if i < |init| {
            assert init[i] == stocks[i];
          } else {
            assert stocks[i] == s;
          }
        }
        if r in Joined(init, sectors, prices, exchangeId, fromYear, toYear) {
          var i, j :| 0 <= i < |init| && 0 <= j < |sectors|
                      && Joins(init[i], sectors[j], prices, exchangeId, fromYear, toYear)
                      && r == RowOf(init[i], sectors[j], prices, fromYear, toYear);
          assert stocks[i] == init[i];
        }
        if r in RowsOfStock(s, sectors, prices, exchangeId, fromYear, toYear) {
          assert stocks[|stocks| - 1] == s;
        }
      }
    }
  }

  // ---------------------------------------------------------------------------
  // GROUP BY every selected column, then ORDER BY price_change_percent DESC
  // ---------------------------------------------------------------------------

  predicate Distinct<T(==)>(s: seq<T>) {
    forall i, j :: 0 <= i < j < |s| ==> s[i] != s[j]
  }

  /** Grouping by every selected column merges equal rows into one. */
  function Dedup(rows: seq<ResultRow>): seq<ResultRow>
    decreases |rows|
  {
    if rows == [] then []
    else
      var d := Dedup(rows[..|rows| - 1]);
      var r := rows[|rows| - 1];
      if r in d then d else d + [r]
  }

  lemma {:induction false} DedupSpec(rows: seq<ResultRow>)
    ensures Distinct(Dedup(rows))
    ensures forall r :: r in Dedup(rows) <==> r in rows
    decreases |rows|
  {
    if rows != [] {
      var init := rows[..|rows| - 1];
      DedupSpec(init);
      assert rows == init + [rows[|rows| - 1]];
    }
  }

  predicate SortedDesc(rows: seq<ResultRow>) {
    forall i, j :: 0 <= i < j < |rows| ==> rows[i].changePercent >= rows[j].changePercent
  }

  function InsertDesc(r: ResultRow, rows: seq<ResultRow>): seq<ResultRow>
    decreases |rows|
  {
    if rows == [] then [r]
    else if r.changePercent >= rows[0].changePercent then [r] + rows
    else [rows[0]] + InsertDesc(r, rows[1..])
  }

  /** The rows in descending order of percent change; rows that tie keep
      their order. */
  function SortDesc(rows: seq<ResultRow>): seq<ResultRow>
    decreases |rows|
  {
    if rows == [] then [] else InsertDesc(rows[0], SortDesc(rows[1..]))
  }

  lemma {:induction false} InsertDescCount(r: ResultRow, rows: seq<ResultRow>)
    ensures multiset(InsertDesc(r, rows)) == multiset(rows) + multiset{r}
    decreases |rows|
  {
    if rows != [] && r.changePercent < rows[0].changePercent {
      InsertDescCount(r, rows[1..]);
      assert rows == [rows[0]] + rows[1..];
    }
  }

  lemma {:induction false} InsertDescSorted(r: ResultRow, rows: seq<ResultRow>)
    requires SortedDesc(rows)
    ensures SortedDesc(InsertDesc(r, rows))
    decreases |rows|
  {
    if rows != [] && r.changePercent < rows[0].changePercent {
      var rest := InsertDesc(r, rows[1..]);
      InsertDescSorted(r, rows[1..]);
      InsertDescCount(r, rows[1..]);
      forall k | 0 <= k < |rest| ensures rest[k].changePercent <= rows[0].changePercent {
        var x := rest[k];
        assert x in multiset(rest);
        if x != r {
          assert x in multiset(rows[1..]);
          var m :| 0 <= m < |rows[1..]| && rows[1..][m] == x;
          assert x == rows[m + 1];
        }
      }
      var out := [rows[0]] + rest;
      forall i, j | 0 <= i < j < |out| ensures out[i].changePercent >= out[j].changePercent {
        if i == 0 {
          assert out[j] == rest[j - 1];
        } else {
          assert out[i] == rest[i - 1] && out[j] == rest[j - 1];
        }
      }
    }
  }

  /** Sorting orders by percent change and keeps every row, as often as it occurs. */
  lemma {:induction false} SortDescSpec(rows: seq<ResultRow>)
    ensures SortedDesc(SortDesc(rows))
    ensures multiset(SortDesc(rows)) == multiset(rows)
    decreases |rows|
  {
    if rows != [] {
      SortDescSpec(rows[1..]);
      InsertDescSorted(rows[0], SortDesc(rows[1..]));
      InsertDescCount(rows[0], SortDesc(rows[1..]));
      assert rows == [rows[0]] + rows[1..];
    }
  }

  /** A sequence without repeats has each element once: so does each of its
      permutations. */
  lemma {:induction false} DistinctCount<T>(s: seq<T>)
    ensures Distinct(s) <==> forall x :: x in s ==> multiset(s)[x] == 1
    decreases |s|
  {
    if s != [] {
      var init := s[..|s| - 1];
      var x := s[|s| - 1];
      DistinctCount(init);
      assert s == init + [x];
      if Distinct(s) {
        assert Distinct(init) by {
          forall i, j | 0 <= i < j < |init| ensures init[i] != init[j] {
            assert init[i] == s[i] && init[j] == s[j];
          }
        }
      }
      if forall y :: y in s ==> multiset(s)[y] == 1 {
        assert x !in init by {
          assert multiset(s)[x] == multiset(init)[x] + 1;
        }
        forall y | y in init ensures multiset(init)[y] == 1 {
          assert multiset(s)[y] == multiset(init)[y] + (if y == x then 1 else 0);
        }
        forall i, j | 0 <= i < j < |s| ensures s[i] != s[j] {
          if j == |s| - 1 {
            assert s[i] == init[i] && s[i] in init;
          } else {
            assert s[i] == init[i] && s[j] == init[j];
          }
        }
      }
    }
  }

  // ---------------------------------------------------------------------------
  // The query
  // ---------------------------------------------------------------------------

  /** yeartoyear_price_percent_change_query. */
  function YearToYearQuery(stocks: seq<StockRow>, sectors: seq<SectorRow>, prices: seq<YearlyPrice>,
                           exchangeId: int, fromYear: int, toYear: int): seq<ResultRow>
  {
    SortDesc(Dedup(Joined(stocks, sectors, prices, exchangeId, fromYear, toYear)))
  }

  /** A row is in the result exactly when some stock and some sector join on
      the requested exchange with averages in both years, and it is their row. */
  lemma YearToYearRows(stocks: seq<StockRow>, sectors: seq<SectorRow>, prices: seq<YearlyPrice>,
                       exchangeId: int, fromYear: int, toYear: int, r: ResultRow)
    ensures r in YearToYearQuery(stocks, sectors, prices, exchangeId, fromYear, toYear) <==>
      exists i, j :: 0 <= i < |stocks| && 0 <= j < |sectors|
                     && Joins(stocks[i], sectors[j], prices, exchangeId, fromYear, toYear)
                     && r == RowOf(stocks[i], sectors[j], prices, fromYear, toYear)
  {
    var joined := Joined(stocks, sectors, prices, exchangeId, fromYear, toYear);
    JoinedMembers(stocks, sectors, prices, exchangeId, fromYear, toYear);
    DedupSpec(joined);
    SortDescSpec(Dedup(joined));
    var q := YearToYearQuery(stocks, sectors, prices, exchangeId, fromYear, toYear);
    assert q == SortDesc(Dedup(joined));
    assert r in q <==> r in multiset(q);
    assert r in multiset(Dedup(joined)) <==> r in Dedup(joined);
  }

  /** What each result row holds: a stock of the requested exchange with price
      rows in both years, an existing sector that is the stock's own, the two
      averages rounded to hundredths and the percent change of the unrounded
      averages. */
  lemma YearToYearRowContents(stocks: seq<StockRow>, sectors: seq<SectorRow>, prices: seq<YearlyPrice>,
                              exchangeId: int, fromYear: int, toYear: int, r: ResultRow)
    requires r in YearToYearQuery(stocks, sectors, prices, exchangeId, fromYear, toYear)
    ensures r.stock in stocks && r.sector in sectors
    ensures r.stock.exchangeId == exchangeId && r.sector.id == r.stock.industrySectorId
    ensures exists k :: 0 <= k < |prices| && InYear(prices[k], fromYear, r.stock.id)
    ensures exists k :: 0 <= k < |prices| && InYear(prices[k], toYear, r.stock.id)
    ensures AvgPrice(prices, fromYear, r.stock.id).Some? && AvgPrice(prices, toYear, r.stock.id).Some?
    ensures var f := AvgPrice(prices, fromYear, r.stock.id).value;
            var t := AvgPrice(prices, toYear, r.stock.id).value;
      && r.avgFrom == Round2(f) && r.avgTo == Round2(t)
      && r.changePercent == Round2((t - f) / Guard(f) * 100.0)
  {
    YearToYearRows(stocks, sectors, prices, exchangeId, fromYear, toYear, r);
    AvgPricePresent(prices, fromYear, r.stock.id);
    AvgPricePresent(prices, toYear, r.stock.id);
  }

  /** The result is ordered by percent change, descending, and holds no row twice. */
  lemma YearToYearOrdered(stocks: seq<StockRow>, sectors: seq<SectorRow>, prices: seq<YearlyPrice>,
                          exchangeId: int, fromYear: int, toYear: int)
    ensures SortedDesc(YearToYearQuery(stocks, sectors, prices, exchangeId, fromYear, toYear))
    ensures Distinct(YearToYearQuery(stocks, sectors, prices, exchangeId, fromYear, toYear))
  {
    var d := Dedup(Joined(stocks, sectors, prices, exchangeId, fromYear, toYear));
    DedupSpec(Joined(stocks, sectors, prices, exchangeId, fromYear, toYear));
    SortDescSpec(d);
    DistinctCount(d);
    var q := SortDesc(d);
    DistinctCount(q);
  }

  /** Primary keys: no two rows of a table share an id. */
  predicate UniqueStockIds(stocks: seq<StockRow>) {
    forall i, j :: 0 <= i < |stocks| && 0 <= j < |stocks| && stocks[i].id == stocks[j].id ==> stocks[i] == stocks[j]
  }

  predicate UniqueSectorIds(sectors: seq<SectorRow>) {
    forall i, j :: 0 <= i < |sectors| && 0 <= j < |sectors| && sectors[i].id == sectors[j].id ==> sectors[i] == sectors[j]
  }

  /** With primary keys on the stock and sector tables, each stock appears at
      most once in the result. */
  lemma YearToYearOncePerStock(stocks: seq<StockRow>, sectors: seq<SectorRow>, prices: seq<YearlyPrice>,
                               exchangeId: int, fromYear: int, toYear: int)
    requires UniqueStockIds(stocks) && UniqueSectorIds(sectors)
    ensures var q := YearToYearQuery(stocks, sectors, prices, exchangeId, fromYear, toYear);
      forall a, b :: 0 <= a < |q| && 0 <= b < |q| && q[a].stock.id == q[b].stock.id ==> a == b
  {
    var q := YearToYearQuery(stocks, sectors, prices, exchangeId, fromYear, toYear);
    YearToYearOrdered(stocks, sectors, prices, exchangeId, fromYear, toYear);
    forall a, b | 0 <= a < |q| && 0 <= b < |q| && q[a].stock.id == q[b].stock.id ensures a == b {
      YearToYearRows(stocks, sectors, prices, exchangeId, fromYear, toYear, q[a]);
      YearToYearRows(stocks, sectors, prices, exchangeId, fromYear, toYear, q[b]);
      var i, j :| 0 <= i < |stocks| && 0 <= j < |sectors|
                  && Joins(stocks[i], sectors[j], prices, exchangeId, fromYear, toYear)
                  && q[a] == RowOf(stocks[i], sectors[j], prices, fromYear, toYear);
      var i', j' :| 0 <= i' < |stocks| && 0 <= j' < |sectors|
                    && Joins(stocks[i'], sectors[j'], prices, exchangeId, fromYear, toYear)
                    && q[b] == RowOf(stocks[i'], sectors[j'], prices, fromYear, toYear);
      assert stocks[i] == stocks[i'];
      assert sectors[j] == sectors[j'];
      assert q[a] == q[b];
    }
  }
}
