/** The record store of whatifstocks/stockanalysis/models.py: the tables Exchange,
    IndustrySector, Stock and StockMonthlyPrice, their unique constraints, their
    non-nullable references and the cascade deletes of their relationships.

    The tables are values (`Tables`) with pure insert and delete operations and
    lemmas saying what each one keeps; `Store` is the mutable store that the
    commands use, a class whose methods move its fields along those operations. */
module Models {
  import opened Wrappers

  // ---------------------------------------------------------------------------
  // Records
  // ---------------------------------------------------------------------------

  /** A calendar date as Python's datetime.date holds it. */
  datatype Date = Date(year: int, month: int, day: int)

  predicate IsLeapYear(y: int) {
    y % 4 == 0 && (y % 100 != 0 || y % 400 == 0)
  }

  function DaysInMonth(year: int, month: int): (n: int)
    requires 1 <= month <= 12
    ensures 28 <= n <= 31
  {
    if month == 2 then (if IsLeapYear(year) then 29 else 28)
    else if month == 4 || month == 6 || month == 9 || month == 11 then 30
    else 31
  }

  /** The dates datetime.date accepts: years 1 to 9999, real months and days. */
  predicate ValidDate(d: Date) {
    && 1 <= d.year <= 9999
    && 1 <= d.month <= 12
    && 1 <= d.day <= DaysInMonth(d.year, d.month)
  }

  type CalendarDate = d: Date | ValidDate(d) witness Date(1, 1, 1)

  datatype Exchange = Exchange(exchangeSymbol: string, title: string)

  datatype IndustrySector = IndustrySector(title: string)

  datatype Stock = Stock(title: string, tickerSymbol: string, exchangeId: int, industrySectorId: int)

  datatype MonthlyPrice = MonthlyPrice(stockId: int, closeAt: CalendarDate, closePrice: real)

  /** The integrity errors the database raises on commit. */
  datatype DbError = UniqueViolation | NotNullViolation | ForeignKeyViolation

  /** The four tables, keyed by surrogate primary key, and the next key to issue. */
  datatype Tables = Tables(
    exchanges: map<int, Exchange>,
    sectors: map<int, IndustrySector>,
    stocks: map<int, Stock>,
    prices: map<int, MonthlyPrice>,
    nextId: int)

  const EmptyTables: Tables := Tables(map[], map[], map[], map[], 1)

  // ---------------------------------------------------------------------------
  // Invariants
  // ---------------------------------------------------------------------------

  /** _exch_symbol_uc */
  predicate UniqueExchangeSymbols(t: Tables) {
    forall a, b :: a in t.exchanges && b in t.exchanges && a != b ==>
      t.exchanges[a].exchangeSymbol != t.exchanges[b].exchangeSymbol
  }

  /** _sector_title_uc */
  predicate UniqueSectorTitles(t: Tables) {
    forall a, b :: a in t.sectors && b in t.sectors && a != b ==>
      t.sectors[a].title != t.sectors[b].title
  }

  /** _stock_eid_symbol_uc: the same ticker may be listed on several exchanges. */
  predicate UniqueStockTickers(t: Tables) {
    forall a, b :: a in t.stocks && b in t.stocks && a != b ==>
      t.stocks[a].exchangeId != t.stocks[b].exchangeId || t.stocks[a].tickerSymbol != t.stocks[b].tickerSymbol
  }

  /** _smp_sid_price_uc */
  predicate UniquePriceDates(t: Tables) {
    forall a, b :: a in t.prices && b in t.prices && a != b ==>
      t.prices[a].stockId != t.prices[b].stockId || t.prices[a].closeAt != t.prices[b].closeAt
  }

  /** The non-nullable foreign keys: every stock has its exchange and its sector,
      every monthly price its stock. */
  predicate ReferencesExist(t: Tables) {
    && (forall s :: s in t.stocks ==> t.stocks[s].exchangeId in t.exchanges)
    && (forall s :: s in t.stocks ==> t.stocks[s].industrySectorId in t.sectors)
    && (forall p :: p in t.prices ==> t.prices[p].stockId in t.stocks)
  }

  /** Every key in use was issued before nextId. */
  predicate KeysIssued(t: Tables) {
    && (forall k :: k in t.exchanges ==> k < t.nextId)
    && (forall k :: k in t.sectors ==> k < t.nextId)
    && (forall k :: k in t.stocks ==> k < t.nextId)
    && (forall k :: k in t.prices ==> k < t.nextId)
  }

  predicate Consistent(t: Tables) {
    && UniqueExchangeSymbols(t)
    && UniqueSectorTitles(t)
    && UniqueStockTickers(t)
    && UniquePriceDates(t)
    && ReferencesExist(t)
    && KeysIssued(t)
  }

  // ---------------------------------------------------------------------------
  // Lookups
  // ---------------------------------------------------------------------------

  predicate SymbolTaken(t: Tables, exchangeSymbol: string) {
    exists k :: k in t.exchanges && t.exchanges[k].exchangeSymbol == exchangeSymbol
  }

  predicate SectorTitleTaken(t: Tables, title: string) {
    exists k :: k in t.sectors && t.sectors[k].title == title
  }

  predicate TickerTaken(t: Tables, exchangeId: int, tickerSymbol: string) {
    exists k :: k in t.stocks && t.stocks[k].exchangeId == exchangeId && t.stocks[k].tickerSymbol == tickerSymbol
  }

  predicate PriceDateTaken(t: Tables, stockId: int, closeAt: Date) {
    exists k :: k in t.prices && t.prices[k].stockId == stockId && t.prices[k].closeAt == closeAt
  }

  /** The exchange holding a symbol (there is at most one in a valid store). */
  ghost function ExchangeWithSymbol(t: Tables, exchangeSymbol: string): (r: Option<int>)
    ensures r.Some? ==> r.value in t.exchanges && t.exchanges[r.value].exchangeSymbol == exchangeSymbol
    ensures r.None? <==> !SymbolTaken(t, exchangeSymbol)
  {
    if SymbolTaken(t, exchangeSymbol) then
      var k :| k in t.exchanges && t.exchanges[k].exchangeSymbol == exchangeSymbol; Some(k)
    else None
  }

  /** In a valid store, a symbol names one exchange only. */
  lemma ExchangeWithSymbolUnique(t: Tables, exchangeSymbol: string, k: int)
    requires Consistent(t)
    requires k in t.exchanges && t.exchanges[k].exchangeSymbol == exchangeSymbol
    ensures ExchangeWithSymbol(t, exchangeSymbol) == Some(k)
  {
  }

  // ---------------------------------------------------------------------------
  // Inserts (Model.create: add the row and commit it)
  // ---------------------------------------------------------------------------

  function InsertExchange(t: Tables, e: Exchange): Result<Tables, DbError> {
    if SymbolTaken(t, e.exchangeSymbol) then Failure(UniqueViolation)
    else Success(t.(exchanges := t.exchanges[t.nextId := e], nextId := t.nextId + 1))
  }

  function InsertSector(t: Tables, s: IndustrySector): Result<Tables, DbError> {
    if SectorTitleTaken(t, s.title) then Failure(UniqueViolation)
    else Success(t.(sectors := t.sectors[t.nextId := s], nextId := t.nextId + 1))
  }

  /** A stock row; `industrySectorId` is None when the caller gives no sector,
      which the non-nullable column refuses. */
  function InsertStock(t: Tables, title: string, tickerSymbol: string, exchangeId: int,
                       industrySectorId: Option<int>): Result<Tables, DbError>
  {
    if industrySectorId.None? then Failure(NotNullViolation)
    else if TickerTaken(t, exchangeId, tickerSymbol) then Failure(UniqueViolation)
    else if exchangeId !in t.exchanges || industrySectorId.value !in t.sectors then Failure(ForeignKeyViolation)
    else Success(t.(stocks := t.stocks[t.nextId := Stock(title, tickerSymbol, exchangeId, industrySectorId.value)],
                    nextId := t.nextId + 1))
  }

  function InsertPrice(t: Tables, p: MonthlyPrice): Result<Tables, DbError> {
    if PriceDateTaken(t, p.stockId, p.closeAt) then Failure(UniqueViolation)
    else if p.stockId !in t.stocks then Failure(ForeignKeyViolation)
    else Success(t.(prices := t.prices[t.nextId := p], nextId := t.nextId + 1))
  }

  /** Prices added to the session and committed together: all of them or none. */
  function InsertPrices(t: Tables, batch: seq<MonthlyPrice>): Result<Tables, DbError>
    decreases |batch|
  {
    if batch == [] then Success(t)
    else match InsertPrice(t, batch[0])
      case Failure(e) => Failure(e)
      case Success(t') => InsertPrices(t', batch[1..])
  }

  lemma InsertExchangeSpec(t: Tables, e: Exchange)
    requires Consistent(t)
    ensures InsertExchange(t, e).Failure? <==> SymbolTaken(t, e.exchangeSymbol)
    ensures InsertExchange(t, e).Success? ==>
      var t' := InsertExchange(t, e).value;
      && Consistent(t')
      && t.nextId !in t.exchanges && |t'.exchanges| == |t.exchanges| + 1
      && t'.exchanges == t.exchanges[t.nextId := e]
      && t'.sectors == t.sectors && t'.stocks == t.stocks && t'.prices == t.prices
  {
  }

  lemma InsertSectorSpec(t: Tables, s: IndustrySector)
    requires Consistent(t)
    ensures InsertSector(t, s).Failure? <==> SectorTitleTaken(t, s.title)
    ensures InsertSector(t, s).Success? ==>
      var t' := InsertSector(t, s).value;
      && Consistent(t')
      && t.nextId !in t.sectors && t'.sectors == t.sectors[t.nextId := s]
      && t'.exchanges == t.exchanges && t'.stocks == t.stocks && t'.prices == t.prices
  {
  }

  lemma InsertStockSpec(t: Tables, title: string, tickerSymbol: string, exchangeId: int,
                        industrySectorId: Option<int>)
    requires Consistent(t)
    ensures InsertStock(t, title, tickerSymbol, exchangeId, industrySectorId).Success? <==>
      && industrySectorId.Some?
      && !TickerTaken(t, exchangeId, tickerSymbol)
      && exchangeId in t.exchanges && industrySectorId.value in t.sectors
    ensures industrySectorId.None? ==>
      InsertStock(t, title, tickerSymbol, exchangeId, industrySectorId) == Failure(NotNullViolation)
    ensures InsertStock(t, title, tickerSymbol, exchangeId, industrySectorId).Success? ==>
      var t' := InsertStock(t, title, tickerSymbol, exchangeId, industrySectorId).value;
      && Consistent(t')
      && t.nextId !in t.stocks
      && t'.stocks == t.stocks[t.nextId := Stock(title, tickerSymbol, exchangeId, industrySectorId.value)]
      && t'.exchanges == t.exchanges && t'.sectors == t.sectors && t'.prices == t.prices
  {
  }

  lemma InsertPriceSpec(t: Tables, p: MonthlyPrice)
    requires Consistent(t)
    ensures InsertPrice(t, p).Success? <==> !PriceDateTaken(t, p.stockId, p.closeAt) && p.stockId in t.stocks
    ensures InsertPrice(t, p).Success? ==>
      var t' := InsertPrice(t, p).value;
      && Consistent(t') && t'.nextId == t.nextId + 1
      && t.nextId !in t.prices && t'.prices == t.prices[t.nextId := p]
      && t'.exchanges == t.exchanges && t'.sectors == t.sectors && t'.stocks == t.stocks
  {
  }

  /** A committed batch keeps the store valid, adds exactly its prices under fresh
      keys and touches no other table. */
  lemma InsertPricesSpec(t: Tables, batch: seq<MonthlyPrice>)
    requires Consistent(t)
    ensures InsertPrices(t, batch).Success? ==>
      var t' := InsertPrices(t, batch).value;
      && Consistent(t')
      && t'.nextId == t.nextId + |batch|
      && (forall k :: k in t'.prices <==> k in t.prices || t.nextId <= k < t.nextId + |batch|)
      && (forall k :: k in t.prices ==> t'.prices[k] == t.prices[k])
      && (forall i :: 0 <= i < |batch| ==> t'.prices[t.nextId + i] == batch[i])
      && t'.exchanges == t.exchanges && t'.sectors == t.sectors && t'.stocks == t.stocks
  {
    InsertPricesConsistent(t, batch);
    InsertPricesKeys(t, batch);
  }

  // ---------------------------------------------------------------------------
  // Updates (Model.update: set the attributes, then commit)
  // ---------------------------------------------------------------------------

  /** The commit of a stock row whose attributes were changed in the session:
      the constraints are checked against every other row. */
  function UpdateStockRow(t: Tables, id: int, s: Stock): Result<Tables, DbError>
    requires id in t.stocks
  {
    if exists k :: k in t.stocks && k != id && t.stocks[k].exchangeId == s.exchangeId &&
                   t.stocks[k].tickerSymbol == s.tickerSymbol
    then Failure(UniqueViolation)
    else if s.exchangeId !in t.exchanges || s.industrySectorId !in t.sectors then Failure(ForeignKeyViolation)
    else Success(t.(stocks := t.stocks[id := s]))
  }

  /** The update is committed exactly when the changed row leaves the store
      valid; it then changes that row and nothing else, and on failure the
      session is rolled back. */
  lemma UpdateStockSpec(t: Tables, id: int, s: Stock)
    requires Consistent(t) && id in t.stocks
    ensures UpdateStockRow(t, id, s).Success? <==> Consistent(t.(stocks := t.stocks[id := s]))
    ensures UpdateStockRow(t, id, s).Success? ==>
      var t' := UpdateStockRow(t, id, s).value;
      && t'.stocks.Keys == t.stocks.Keys && t'.stocks[id] == s
      && (forall k :: k in t.stocks && k != id ==> t'.stocks[k] == t.stocks[k])
      && t'.exchanges == t.exchanges && t'.sectors == t.sectors && t'.prices == t.prices
      && t'.nextId == t.nextId
  {
    var c := t.(stocks := t.stocks[id := s]);
    assert c.stocks[id] == s;
    if exists k :: k in t.stocks && k != id && t.stocks[k].exchangeId == s.exchangeId &&
                   t.stocks[k].tickerSymbol == s.tickerSymbol {
      var k :| k in t.stocks && k != id && t.stocks[k].exchangeId == s.exchangeId &&
               t.stocks[k].tickerSymbol == s.tickerSymbol;
      assert c.stocks[k] == t.stocks[k];
      assert !UniqueStockTickers(c);
    } else if s.exchangeId !in t.exchanges || s.industrySectorId !in t.sectors {
      assert !ReferencesExist(c);
    }
  }

  lemma {:induction false} InsertPricesConsistent(t: Tables, batch: seq<MonthlyPrice>)
    requires Consistent(t)
    ensures InsertPrices(t, batch).Success? ==> Consistent(InsertPrices(t, batch).value)
    decreases |batch|
  {
    if batch != [] && InsertPrice(t, batch[0]).Success? {
      InsertPriceSpec(t, batch[0]);
      InsertPricesConsistent(InsertPrice(t, batch[0]).value, batch[1..]);
    }
  }

  /** Where a committed batch puts its prices: under the keys nextId, nextId + 1, ...
      in batch order, after every key already in use. */
  lemma {:induction false} InsertPricesKeys(t: Tables, batch: seq<MonthlyPrice>)
    requires forall k :: k in t.prices ==> k < t.nextId
    ensures InsertPrices(t, batch).Success? ==>
      var t' := InsertPrices(t, batch).value;
      && t'.nextId == t.nextId + |batch|
      && (forall k :: k in t'.prices <==> k in t.prices || t.nextId <= k < t.nextId + |batch|)
      && (forall k :: k in t.prices ==> t'.prices[k] == t.prices[k])
      && (forall i :: 0 <= i < |batch| ==> t'.prices[t.nextId + i] == batch[i])
      && t'.exchanges == t.exchanges && t'.sectors == t.sectors && t'.stocks == t.stocks
    decreases |batch|
  {
    if batch != [] && InsertPrice(t, batch[0]).Success? {
      var t1 := InsertPrice(t, batch[0]).value;
      assert t1 == t.(prices := t.prices[t.nextId := batch[0]], nextId := t.nextId + 1);
      InsertPricesKeys(t1, batch[1..]);
      if InsertPrices(t1, batch[1..]).Success? {
        var t' := InsertPrices(t1, batch[1..]).value;
        assert InsertPrices(t, batch) == InsertPrices(t1, batch[1..]);
        forall i | 0 <= i < |batch| ensures t'.prices[t.nextId + i] == batch[i] {
          if i > 0 {
            assert t.nextId + i == t1.nextId + (i - 1);
            assert batch[1..][i - 1] == batch[i];
          }
        }
      }
    }
  }

  /** r holds everything t holds: the same exchanges and sectors, and every
      stock and every price of t under its key, unchanged. */
  predicate Extends(t: Tables, r: Tables) {
    && r.exchanges == t.exchanges && r.sectors == t.sectors
    && (forall k :: k in t.stocks ==> k in r.stocks && r.stocks[k] == t.stocks[k])
    && (forall k :: k in t.prices ==> k in r.prices && r.prices[k] == t.prices[k])
  }

  /** No two prices of the batch share a date. */
  predicate DistinctDates(batch: seq<MonthlyPrice>) {
    forall j, k :: 0 <= j < k < |batch| ==> batch[j].closeAt != batch[k].closeAt
  }

  /** After a price row is added, a date is taken for its stock when it was
      taken before or is the row's own date. */
  lemma PriceDateTakenAfter(t: Tables, p: MonthlyPrice, stockId: int, d: Date)
    requires forall k :: k in t.prices ==> k < t.nextId
    requires p.stockId == stockId
    ensures PriceDateTaken(t.(prices := t.prices[t.nextId := p], nextId := t.nextId + 1), stockId, d) <==>
      PriceDateTaken(t, stockId, d) || d == p.closeAt
  {
    var t1 := t.(prices := t.prices[t.nextId := p], nextId := t.nextId + 1);
    if PriceDateTaken(t, stockId, d) {
      var k :| k in t.prices && t.prices[k].stockId == stockId && t.prices[k].closeAt == d;
      assert t1.prices[k] == t.prices[k];
    }
    if d == p.closeAt {
      assert t1.prices[t.nextId] == p;
    }
  }

  /** A batch of prices of one existing stock commits exactly when none of its
      dates is taken for that stock yet and no two of them are the same. */
  lemma {:induction false} InsertPricesOneStock(t: Tables, batch: seq<MonthlyPrice>, stockId: int)
    requires stockId in t.stocks
    requires forall k :: k in t.prices ==> k < t.nextId
    requires forall j :: 0 <= j < |batch| ==> batch[j].stockId == stockId
    ensures InsertPrices(t, batch).Success? <==>
      (forall j :: 0 <= j < |batch| ==> !PriceDateTaken(t, stockId, batch[j].closeAt)) && DistinctDates(batch)
    decreases |batch|
  {
    if batch != [] {
      var p := batch[0];
      var rest := batch[1..];
      var t1 := t.(prices := t.prices[t.nextId := p], nextId := t.nextId + 1);
      forall d ensures PriceDateTaken(t1, stockId, d) <==> PriceDateTaken(t, stockId, d) || d == p.closeAt {
        PriceDateTakenAfter(t, p, stockId, d);
      }
      InsertPricesOneStock(t1, rest, stockId);
      assert forall j :: 0 <= j < |rest| ==> rest[j] == batch[j + 1];
      if !PriceDateTaken(t, stockId, p.closeAt) {
        assert InsertPrice(t, p) == Success(t1);
        if InsertPrices(t, batch).Success? {
          forall j, k | 0 <= j < k < |batch| ensures batch[j].closeAt != batch[k].closeAt {
            if j > 0 {
              assert rest[j - 1] == batch[j] && rest[k - 1] == batch[k];
            } else {
              assert !PriceDateTaken(t1, stockId, rest[k - 1].closeAt);
            }
          }
        }
        if (forall j :: 0 <= j < |batch| ==> !PriceDateTaken(t, stockId, batch[j].closeAt)) && DistinctDates(batch) {
          forall j | 0 <= j < |rest| ensures !PriceDateTaken(t1, stockId, rest[j].closeAt) {
            assert batch[0].closeAt != batch[j + 1].closeAt;
          }
          forall a, b | 0 <= a < b < |rest| ensures rest[a].closeAt != rest[b].closeAt {
            assert batch[a + 1].closeAt != batch[b + 1].closeAt;
          }
        }
      } else {
        assert InsertPrices(t, batch).Failure?;
      }
    }
  }

  // ---------------------------------------------------------------------------
  // Deletes (Model.delete, with the cascade="all, delete-orphan" relationships)
  // ---------------------------------------------------------------------------

  /** Removes the given stocks and, by cascade, their monthly prices. */
  function RemoveStocks(t: Tables, gone: set<int>): Tables {
    t.(stocks := map k | k in t.stocks && k !in gone :: t.stocks[k],
       prices := map p | p in t.prices && t.prices[p].stockId !in gone :: t.prices[p])
  }

  function CascadeDeleteExchange(t: Tables, id: int): Tables {
    RemoveStocks(t.(exchanges := map k | k in t.exchanges && k != id :: t.exchanges[k]),
                 set s | s in t.stocks && t.stocks[s].exchangeId == id)
  }

  function CascadeDeleteSector(t: Tables, id: int): Tables {
    RemoveStocks(t.(sectors := map k | k in t.sectors && k != id :: t.sectors[k]),
                 set s | s in t.stocks && t.stocks[s].industrySectorId == id)
  }

  function CascadeDeleteStock(t: Tables, id: int): Tables {
    RemoveStocks(t, {id})
  }

  function RemovePrice(t: Tables, id: int): Tables {
    t.(prices := map k | k in t.prices && k != id :: t.prices[k])
  }

  /** Deleting an exchange deletes exactly its stocks and their prices, and the
      store stays valid. */
  lemma CascadeDeleteExchangeSpec(t: Tables, id: int)
    requires Consistent(t)
    ensures var t' := CascadeDeleteExchange(t, id);
      && Consistent(t')
      && t'.exchanges.Keys == t.exchanges.Keys - {id}
      && (forall k :: k in t'.exchanges ==> t'.exchanges[k] == t.exchanges[k])
      && (forall s :: s in t.stocks ==> (s in t'.stocks <==> t.stocks[s].exchangeId != id))
      && (forall p :: p in t.prices ==> (p in t'.prices <==> t.prices[p].stockId in t'.stocks))
      && (forall s :: s in t'.stocks ==> s in t.stocks && t'.stocks[s] == t.stocks[s])
      && (forall p :: p in t'.prices ==> p in t.prices && t'.prices[p] == t.prices[p])
      && t'.sectors == t.sectors && t'.nextId == t.nextId
  {
  }

  /** Deleting a sector deletes exactly its stocks and their prices. */
  lemma CascadeDeleteSectorSpec(t: Tables, id: int)
    requires Consistent(t)
    ensures var t' := CascadeDeleteSector(t, id);
      && Consistent(t')
      && t'.sectors.Keys == t.sectors.Keys - {id}
      && (forall k :: k in t'.sectors ==> t'.sectors[k] == t.sectors[k])
      && (forall s :: s in t.stocks ==> (s in t'.stocks <==> t.stocks[s].industrySectorId != id))
      && (forall p :: p in t.prices ==> (p in t'.prices <==> t.prices[p].stockId in t'.stocks))
      && (forall s :: s in t'.stocks ==> s in t.stocks && t'.stocks[s] == t.stocks[s])
      && (forall p :: p in t'.prices ==> p in t.prices && t'.prices[p] == t.prices[p])
      && t'.exchanges == t.exchanges && t'.nextId == t.nextId
  {
  }

  /** Deleting a stock deletes exactly its monthly prices. */
  lemma CascadeDeleteStockSpec(t: Tables, id: int)
    requires Consistent(t)
    ensures var t' := CascadeDeleteStock(t, id);
      && Consistent(t')
      && t'.stocks.Keys == t.stocks.Keys - {id}
      && (forall p :: p in t.prices ==> (p in t'.prices <==> t.prices[p].stockId != id))
      && (forall s :: s in t'.stocks ==> t'.stocks[s] == t.stocks[s])
      && (forall p :: p in t'.prices ==> p in t.prices && t'.prices[p] == t.prices[p])
      && t'.exchanges == t.exchanges && t'.sectors == t.sectors && t'.nextId == t.nextId
  {
  }

  lemma RemovePriceSpec(t: Tables, id: int)
    requires Consistent(t)
    ensures var t' := RemovePrice(t, id);
      && Consistent(t') && t'.prices.Keys == t.prices.Keys - {id}
      && (forall p :: p in t'.prices ==> t'.prices[p] == t.prices[p])
      && t'.exchanges == t.exchanges && t'.sectors == t.sectors && t'.stocks == t.stocks
      && t'.nextId == t.nextId
  {
  }

  /** Without the cascade, deleting an exchange that still lists a stock would
      leave that stock pointing at nothing. */
  lemma CascadeNeeded(t: Tables, id: int, s: int)
    requires Consistent(t) && s in t.stocks && t.stocks[s].exchangeId == id
    ensures !ReferencesExist(t.(exchanges := map k | k in t.exchanges && k != id :: t.exchanges[k]))
  {
    var t' := t.(exchanges := map k | k in t.exchanges && k != id :: t.exchanges[k]);
    assert s in t'.stocks && t'.stocks[s].exchangeId !in t'.exchanges;
  }

  // ---------------------------------------------------------------------------
  // The store
  // ---------------------------------------------------------------------------

  /** The database as the commands see it through the ORM session. */
  class Store {
    var exchanges: map<int, Exchange>
    var sectors: map<int, IndustrySector>
    var stocks: map<int, Stock>
    var prices: map<int, MonthlyPrice>
    var nextId: int

    function Snapshot(): Tables
      reads this
    {
      Tables(exchanges, sectors, stocks, prices, nextId)
    }

    predicate Valid()
      reads this
    {
      Consistent(Snapshot())
    }

    constructor ()
      ensures Valid() && Snapshot() == EmptyTables
    {
      exchanges, sectors, stocks, prices, nextId := map[], map[], map[], map[], 1;
    }

    /** Exchange.create(...) */
    method CreateExchange(exchangeSymbol: string, title: string) returns (r: Result<int, DbError>)
      requires Valid()
      modifies this
      ensures Valid()
      ensures match InsertExchange(old(Snapshot()), Exchange(exchangeSymbol, title))
        case Success(t) => Snapshot() == t && r == Success(old(nextId))
        case Failure(e) => Snapshot() == old(Snapshot()) && r == Failure(e)
    {
      if SymbolTaken(Snapshot(), exchangeSymbol) {
        r := Failure(UniqueViolation);
      } else {
        InsertExchangeSpec(Snapshot(), Exchange(exchangeSymbol, title));
        exchanges := exchanges[nextId := Exchange(exchangeSymbol, title)];
        r := Success(nextId);
        nextId := nextId + 1;
      }
    }

    /** IndustrySector.create(...) */
    method CreateSector(title: string) returns (r: Result<int, DbError>)
      requires Valid()
      modifies this
      ensures Valid()
      ensures match InsertSector(old(Snapshot()), IndustrySector(title))
        case Success(t) => Snapshot() == t && r == Success(old(nextId))
        case Failure(e) => Snapshot() == old(Snapshot()) && r == Failure(e)
    {
      InsertSectorSpec(Snapshot(), IndustrySector(title));
      if SectorTitleTaken(Snapshot(), title) {
        r := Failure(UniqueViolation);
      } else {
        sectors := sectors[nextId := IndustrySector(title)];
        r := Success(nextId);
        nextId := nextId + 1;
      }
    }

    /** Stock.create(...) */
    method CreateStock(title: string, tickerSymbol: string, exchangeId: int, industrySectorId: Option<int>)
      returns (r: Result<int, DbError>)
      requires Valid()
      modifies this
      ensures Valid()
      ensures match InsertStock(old(Snapshot()), title, tickerSymbol, exchangeId, industrySectorId)
        case Success(t) => Snapshot() == t && r == Success(old(nextId))
        case Failure(e) => Snapshot() == old(Snapshot()) && r == Failure(e)
    {
      InsertStockSpec(Snapshot(), title, tickerSymbol, exchangeId, industrySectorId);
      if industrySectorId.None? {
        r := Failure(NotNullViolation);
        return;
      }
      if TickerTaken(Snapshot(), exchangeId, tickerSymbol) {
        r := Failure(UniqueViolation);
      } else if exchangeId !in exchanges || industrySectorId.value !in sectors {
        r := Failure(ForeignKeyViolation);
      } else {
        stocks := stocks[nextId := Stock(title, tickerSymbol, exchangeId, industrySectorId.value)];
        r := Success(nextId);
        nextId := nextId + 1;
      }
    }

    /** db.session.add(...) for each price, then db.session.commit(): the batch is
        staged and written only when every row passes the constraints. */
    method AddPrices(batch: seq<MonthlyPrice>) returns (r: Outcome<DbError>)
      requires Valid()
      modifies this
      ensures Valid()
      ensures match InsertPrices(old(Snapshot()), batch)
        case Success(t) => Snapshot() == t && r == Pass
        case Failure(e) => Snapshot() == old(Snapshot()) && r == Fail(e)
    {
      var staged := Snapshot();
      var i := 0;
      while i < |batch|
        invariant 0 <= i <= |batch|
        invariant Consistent(staged)
        invariant staged.exchanges == exchanges && staged.sectors == sectors && staged.stocks == stocks
        invariant InsertPrices(Snapshot(), batch) == InsertPrices(staged, batch[i..])
        invariant Snapshot() == old(Snapshot())
      {
        var p := batch[i];
        assert batch[i..][0] == p && batch[i..][1..] == batch[i + 1..];
        InsertPriceSpec(staged, p);
        if PriceDateTaken(staged, p.stockId, p.closeAt) {
          return Fail(UniqueViolation);
        }
        if p.stockId !in stocks {
          return Fail(ForeignKeyViolation);
        }
        staged := staged.(prices := staged.prices[staged.nextId := p], nextId := staged.nextId + 1);
        i := i + 1;
      }
      assert batch[i..] == [];
      prices, nextId := staged.prices, staged.nextId;
      r := Pass;
    }

    /** Model.delete(...) on an exchange, with its stocks and their prices. */
    method DeleteExchange(id: int)
      requires Valid()
      modifies this
      ensures Valid() && Snapshot() == CascadeDeleteExchange(old(Snapshot()), id)
    {
      CascadeDeleteExchangeSpec(Snapshot(), id);
      Commit(CascadeDeleteExchange(Snapshot(), id));
    }

    /** Model.delete(...) on a sector, with its stocks and their prices. */
    method DeleteSector(id: int)
      requires Valid()
      modifies this
      ensures Valid() && Snapshot() == CascadeDeleteSector(old(Snapshot()), id)
    {
      CascadeDeleteSectorSpec(Snapshot(), id);
      Commit(CascadeDeleteSector(Snapshot(), id));
    }

    /** Model.delete(...) on a stock, with its monthly prices. */
    method DeleteStock(id: int)
      requires Valid()
      modifies this
      ensures Valid() && Snapshot() == CascadeDeleteStock(old(Snapshot()), id)
    {
      CascadeDeleteStockSpec(Snapshot(), id);
      Commit(CascadeDeleteStock(Snapshot(), id));
    }

    /** Model.delete(...) on one monthly price. */
    method DeletePrice(id: int)
      requires Valid()
      modifies this
      ensures Valid() && Snapshot() == RemovePrice(old(Snapshot()), id)
    {
      RemovePriceSpec(Snapshot(), id);
      Commit(RemovePrice(Snapshot(), id));
    }

    /** stock.update(**kwargs) with commit: the changed row is written when the
        constraints hold, and the session is rolled back otherwise. */
    method UpdateStock(id: int, s: Stock) returns (r: Outcome<DbError>)
      requires Valid() && id in stocks
      modifies this
      ensures Valid()
      ensures match UpdateStockRow(old(Snapshot()), id, s)
        case Success(t) => Snapshot() == t && r == Pass
        case Failure(e) => Snapshot() == old(Snapshot()) && r == Fail(e)
    {
      UpdateStockSpec(Snapshot(), id, s);
      match UpdateStockRow(Snapshot(), id, s)
      case Failure(e) =>
        r := Fail(e);
      case Success(t) =>
        Commit(t);
        r := Pass;
    }

    /** Writes a whole new state of the tables. */
    method Commit(t: Tables)
      modifies this
      ensures Snapshot() == t
    {
      exchanges, sectors, stocks, prices, nextId := t.exchanges, t.sectors, t.stocks, t.prices, t.nextId;
    }
  }
}
