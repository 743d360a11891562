/** The stock market: a registry of stocks keyed by symbol and the ledger of
    every trade made, with the operations that register stocks, record
    trades and compute the volume weighted stock price and the GBCE all
    share index.

    The clock is not read here: each operation that stamps or windows
    trades takes the current instant `now` from its caller.
 */
module Market {
  import opened Outcomes
  import opened Stocks
  import opened Trades
  import opened Sorting
  import opened Ledger

  /** A registry keyed by symbol: every stock sits under its own symbol. */
  predicate Keyed(stocks: map<string, Stock>) {
    forall symbol :: symbol in stocks ==> stocks[symbol].symbol == symbol
  }

  /** In a keyed registry no stock is held under two symbols, so there are
      as many stocks as symbols. */
  lemma {:induction false} KeyedRegistrySize(stocks: map<string, Stock>)
    requires Keyed(stocks)
    ensures |stocks.Values| == |stocks.Keys|
    decreases |stocks.Keys|
  {
    if stocks.Keys != {} {
      var k :| k in stocks.Keys;
      var rest := stocks - {k};
      assert rest.Keys == stocks.Keys - {k};
      KeyedRegistrySize(rest);
      assert stocks.Values == rest.Values + {stocks[k]} by {
        forall v | v in stocks.Values
          ensures v in rest.Values || v == stocks[k]
        {
          var j :| j in stocks && stocks[j] == v;
          if j != k {
            assert rest[j] == v;
          }
        }
      }
      assert stocks[k] !in rest.Values;
    }
  }

  /** The ledger sorted in place by the trades' comparison, as a value. */
  method SortedCopy(ledger: seq<Trade>) returns (sorted: seq<Trade>)
    ensures SortedByCompareTo(sorted)
    ensures multiset(sorted) == multiset(ledger)
  {
    var a := new Trade[|ledger|](i requires 0 <= i < |ledger| => ledger[i]);
    assert a[..] == ledger;
    SortTrades(a);
    sorted := a[..];
  }

  /** The scan of a newest-first ledger: from the newest trade, add up the
      price times quantity and the quantity of the trades of `kind`, and
      stop at the first trade older than `cutoff`. Stopping early loses
      nothing, because every trade after it is older still. */
  method ScanWindow(ledger: seq<Trade>, kind: StockType, cutoff: int) returns (numerator: real, denominator: real)
    requires SortedByCompareTo(ledger)
    ensures numerator == Numerator(ledger, kind, cutoff)
    ensures denominator == Volume(ledger, kind, cutoff)
  {
    assert ledger[..|ledger|] == ledger;
    numerator, denominator := 0.0, 0.0;
    for i := 0 to |ledger|
      invariant numerator == Numerator(ledger[..i], kind, cutoff)
      invariant denominator == Volume(ledger[..i], kind, cutoff)
    {
      var t := ledger[i];
      if t.timestamp < cutoff {
        OlderTrailDoesNotCount(ledger, i, kind, cutoff);
        break;
      }
      assert ledger[..i + 1] == ledger[..i] + [t];
      if t.stockType == kind {
        numerator := numerator + t.price * (t.quantity as real);
        denominator := denominator + t.quantity as real;
      }
    }
  }

  class StockMarket {
    var marketStocks: map<string, Stock>
    var trades: seq<Trade>

    /** The registry is keyed by symbol and every recorded trade is valid. */
    ghost predicate Valid()
      reads this
    {
      Keyed(marketStocks) && ValidLedger(trades)
    }

    constructor ()
      ensures Valid()
      ensures marketStocks == map[] && trades == []
    {
      marketStocks := map[];
      trades := [];
    }

    /** Registers a stock under its symbol unless that symbol is taken. */
    method AddStock(stock: Stock) returns (success: bool)
      requires Valid()
      modifies this
      ensures Valid()
      ensures success <==> stock.symbol !in old(marketStocks)
      ensures marketStocks == if success then old(marketStocks)[stock.symbol := stock] else old(marketStocks)
      ensures StockCount() == if success then old(StockCount()) + 1 else old(StockCount())
      ensures trades == old(trades)
    {
      if stock.symbol in marketStocks {
        success := false;
      } else {
        marketStocks := marketStocks[stock.symbol := stock];
        success := true;
      }
    }

    /** Records a trade of the stock registered under `stockSymbol`, stamped
        `now` and carrying that stock's type, when the symbol is registered
        and the trade constructor accepts quantity and price. */
    method TradeSomeStock(stockSymbol: string, shareQuantity: int, buyOrSell: BuyOrSell, tradedPrice: real, now: int)
      returns (success: bool)
      requires Valid()
      modifies this
      ensures Valid()
      ensures success <==> stockSymbol in marketStocks && shareQuantity > 0 && tradedPrice > 0.0
      ensures trades == if success
                        then old(trades) + [Trade(now, marketStocks[stockSymbol].stockType, shareQuantity, buyOrSell, tradedPrice)]
                        else old(trades)
      ensures TradeCount() == if success then old(TradeCount()) + 1 else old(TradeCount())
      ensures marketStocks == old(marketStocks)
    {
      success := false;
      if stockSymbol in marketStocks {
        match NewTrade(now, marketStocks[stockSymbol].stockType, shareQuantity, buyOrSell, tradedPrice)
        case Ok(trade) =>
          trades := trades + [trade];
          success := true;
        case Err(_) =>
          success := false;
      }
    }

    /** The number of distinct stocks registered. */
    function StockCount(): (n: nat)
      reads this
      requires Valid()
      ensures n == |marketStocks.Values|
    {
      KeyedRegistrySize(marketStocks);
      |marketStocks|
    }

    /** The number of trades ever recorded. */
    function TradeCount(): (n: nat)
      reads this
      ensures n == |trades|
    {
      |trades|
    }

    /** The volume weighted stock price of `stockType` over the fifteen
        minutes up to `now`. Sorts the ledger newest first, then scans it
        from the newest trade and stops at the first one older than the
        cutoff. */
    method CalculateVolumeWeightedStockPrice(stockType: StockType, now: int) returns (r: Result<real>)
      requires Valid()
      modifies this
      ensures Valid()
      ensures r == VolumeWeightedPrice(old(trades), stockType, now)
      ensures SortedByCompareTo(trades) && multiset(trades) == multiset(old(trades))
      ensures AllShareIndex(trades) == AllShareIndex(old(trades))
      ensures marketStocks == old(marketStocks)
    {
      if |trades| == 0 {
        return Err(NoTradesForVolumeWeightedPrice);
      }
      var unsorted := trades;
      trades := SortedCopy(unsorted);
      AllShareIndexIgnoresOrder(unsorted, trades);
      VolumeWeightedPriceIgnoresOrder(unsorted, trades, stockType, now);
      forall t | t in trades
        ensures ValidTrade(t)
      {
        assert t in multiset(unsorted);
      }
      var numerator, denominator := ScanWindow(trades, stockType, now - FifteenMinutes);
      if denominator == 0.0 {
        return Err(NoTradesInWindow);
      }
      r := Ok(numerator / denominator);
    }

    /** The GBCE all share index: the product of all trade prices, whose
        root of degree the number of trades is the index. */
    method CalculateGBCEAllShareIndex() returns (r: Result<RootOf>)
      ensures r == AllShareIndex(trades)
    {
      if |trades| == 0 {
        return Err(NoTradesForAllShareIndex);
      }
      var productOfPrices := 1.0;
      for i := 0 to |trades|
        invariant productOfPrices == PriceProduct(trades[..i])
      {
        assert trades[..i + 1] == trades[..i] + [trades[i]];
        productOfPrices := productOfPrices * trades[i].price;
      }
      assert trades[..|trades|] == trades;
      r := Ok(RootOf(productOfPrices, |trades|));
    }
  }
}
