# Super Simple Stock Market — a Dafny model

This project models the core of the Super Simple Stock Market library
(`SuperSimpleStockMarket/Class1.cs`). The library has four parts:

- **Stocks.** A stock has a symbol, a type (Common or Preferred), a par value, a last dividend and an optional fixed dividend rate. Two constructors validate these. Each stock answers two queries at a given price: its dividend yield and its P/E ratio.
- **Trades.** A trade is a validated record of a timestamp, a stock type, a quantity, a side (buy or sell) and a price. Trades are ordered newest first by their `CompareTo`.
- **The market.** The market is a registry of stocks keyed by symbol plus a ledger of trades. Registering a stock and recording a trade never fail loudly; they report success as a boolean.
- **Market queries.** The market answers two questions about its ledger:
  - the volume weighted stock price of a stock type over the last fifteen minutes;
  - the GBCE all share index, the geometric mean of every traded price.

## Files

| File | Module | What it holds |
|---|---|---|
| `outcomes.dfy` | `Outcomes` | `Option` and `Result` types, plus one error tag per distinct exception message in the library. |
| `stock.dfy` | `Stocks` | The stock value, its argument checks, both constructors, the dividend yield and the P/E ratio. |
| `trade.dfy` | `Trades` | The trade value, its checks, its constructor, and `CompareTo` with its ordering lemmas. |
| `sorting.dfy` | `Sorting` | The in-place sort of the ledger, as an array algorithm. |
| `ledger.dfy` | `Ledger` | The two market queries, written as functions of the ledger, with the lemmas about them. |
| `market.dfy` | `Market` | The `StockMarket` class: its registry and ledger fields, and the methods that update and query them. |

## How the model is written

- **Values and the class.** Stocks and trades are immutable datatypes. Every constructor or query that can throw returns a `Result` whose error tag names the message. `StockMarket` is a class with two fields: `marketStocks: map<string, Stock>` and `trades: seq<Trade>`. Its methods say exactly how each field changes.
- **Windowed price.** `CalculateVolumeWeightedStockPrice` keeps the library's structure:
  - it sorts the ledger in place, newest first, and keeps the sorted order;
  - it then scans from the newest trade and stops at the first trade older than the cutoff.
  The method is proved equal to `Ledger.VolumeWeightedPrice`. That function is a plain sum over every trade in the window, in any order.
- **All share index.** `CalculateGBCEAllShareIndex` multiplies the prices in a loop. It is proved equal to `Ledger.AllShareIndex`.
- **Shared fold.** Both queries use one fold over a commutative operation, addition or multiplication. Order independence is proved once, for that fold.
- **Representation.**
  - Doubles are exact reals.
  - Instants are integers counting 100-nanosecond ticks, so fifteen minutes is 9 000 000 000 ticks.
  - The current time is a parameter `now` wherever the library reads the clock.
- **The root.** The index is returned as a symbolic root, `RootOf(product, number of trades)`. `Denotes(x, r)` says that the non-negative real `x` raised to the degree equals the product. Such an `x` is unique, and for one trade it is that trade's price.
- **Where the code and its documentation disagree.** The doc comment of the 5-argument constructor (`SuperSimpleStockMarket/Class1.cs:73`) asks for a fixed dividend greater than zero. The test at `UnitTestProject/UnitTest1.cs:210-230` expects 0.0 to be refused. The check the constructor calls (`SuperSimpleStockMarket/Class1.cs:157-163`) rejects only negative values and values above one, so a rate of exactly zero is accepted. The model follows the code:
  - `Stocks.ZeroFixedDividendAccepted` states this acceptance;
  - `Stocks.PERatio` returns `Infinite` for such a stock, as the double division would.

  As that test is written, its `catch` block also catches the failure raised by its own `Assert.Fail`, so the test does not detect the acceptance.

## Model

| member | source | states |
|---|---|---|
| Stocks.CheckPrice | SuperSimpleStockMarket/Class1.cs:137-143 | A price passes exactly when it is positive. A negative price and a zero price are refused with different errors. |
| Stocks.CheckParValue | SuperSimpleStockMarket/Class1.cs:145-149 | A par value passes exactly when it is positive; otherwise the par-value error is raised. |
| Stocks.CheckLastDividend | SuperSimpleStockMarket/Class1.cs:151-155 | A last dividend passes exactly when it is not negative. |
| Stocks.CheckFixedDividend | SuperSimpleStockMarket/Class1.cs:157-163 | A fixed dividend passes exactly when it lies in [0, 1], zero included. Below zero and above one raise different errors. |
| Stocks.NewStock | SuperSimpleStockMarket/Class1.cs:52-64 | Succeeds exactly for a Common stock with positive par value and non-negative last dividend. The result has every field as given and no fixed dividend. A Preferred type is refused first, then a bad par value, then a bad last dividend, each with its own error. |
| Stocks.NewStockWithFixedDividend | SuperSimpleStockMarket/Class1.cs:74-85 | Succeeds exactly when par value > 0, last dividend >= 0 and 0 <= fixed dividend <= 1, whatever the stock type. The result carries the fixed dividend. The checks run in source order, each with its own error. |
| Stocks.WellFormedIffConstructed | SuperSimpleStockMarket/Class1.cs:52-85 | A stock value is well formed exactly when one of the two constructors builds it from its own fields. Well formed means positive par value, non-negative last dividend, a rate in [0, 1] if present, and a Preferred stock always has a rate. |
| Stocks.ConstructedStockYieldDefined | SuperSimpleStockMarket/Class1.cs:103-108 | At a positive price, every stock either constructor accepts has a defined dividend yield. So the missing-fixed-dividend throw cannot be reached by constructed stocks. |
| Stocks.DividendYield | SuperSimpleStockMarket/Class1.cs:92-116 | Non-positive prices fail with the price errors. At a positive price the yield fails only for a Preferred stock without a rate. Yield × price is the last dividend (Common) or rate × par value (Preferred). For a well formed stock the yield is defined and non-negative. |
| Stocks.PERatio | SuperSimpleStockMarket/Class1.cs:123-135 | Non-positive prices fail with the price errors. At a positive price the ratio exists exactly when the stock has a fixed dividend, whatever its type. It is infinite exactly when the rate is 0. Otherwise ratio × rate = price, and for a well formed stock the ratio is at least the price. |
| Stocks.ZeroFixedDividendAccepted | SuperSimpleStockMarket/Class1.cs:157-163 | A fixed dividend of exactly 0.0 is accepted by the 5-argument constructor, and that stock's P/E ratio is infinite. |
| Trades.CheckQuantity | SuperSimpleStockMarket/Class1.cs:220-224 | A quantity passes exactly when it is positive. |
| Trades.CheckTradePrice | SuperSimpleStockMarket/Class1.cs:226-230 | A trade price passes exactly when it is positive; zero and negative share one error. |
| Trades.NewTrade | SuperSimpleStockMarket/Class1.cs:185-195 | Succeeds exactly when quantity > 0 and price > 0, with every field equal to its argument. A bad quantity is reported before a bad price. |
| Trades.ValidIffConstructed | SuperSimpleStockMarket/Class1.cs:185-195 | The constructor builds exactly the trades with positive quantity and price. |
| Trades.CompareInstants | SuperSimpleStockMarket/Class1.cs:212 | Comparing two instants gives 1, -1 or 0 exactly when the first is later, earlier or the same. |
| Trades.CompareTo | SuperSimpleStockMarket/Class1.cs:202-218 | Comparing with nothing gives 1. Comparing with a trade is negative, zero or positive exactly when this trade is later than, at the same instant as, or earlier than the other. The result is between -1 and 1. |
| Trades.CompareToAntisymmetric | SuperSimpleStockMarket/Class1.cs:210-214 | Swapping the two trades negates the comparison. |
| Trades.CompareToTransitive | SuperSimpleStockMarket/Class1.cs:202-218 | "Sorts no later than" is transitive. |
| Trades.SortedIsNewestFirst | SuperSimpleStockMarket/Class1.cs:197-199 | A ledger is sorted by `CompareTo` exactly when its timestamps never increase. |
| Sorting.SortTrades | SuperSimpleStockMarket/Class1.cs:332-333 | After the in-place sort, the array is sorted by `CompareTo` (newest first) and holds the same trades with the same multiplicities. |
| Ledger.FoldPermutation | SuperSimpleStockMarket/Class1.cs:373-380 | Combining the trades with an associative and commutative operation gives the same result for any two orderings of the same trades. |
| Ledger.OlderTrailDoesNotCount | SuperSimpleStockMarket/Class1.cs:340-342 | In a newest-first ledger, cutting at the first trade older than the cutoff leaves the windowed numerator and volume unchanged. This is why the scan may stop there. |
| Ledger.VolumeWeightedPriceIgnoresOrder | SuperSimpleStockMarket/Class1.cs:332-333 | Two ledgers holding the same trades give the same volume weighted price, so the sort changes no answer. |
| Ledger.VolumeZeroIffWindowEmpty | SuperSimpleStockMarket/Class1.cs:349-353 | With valid trades the windowed volume is never negative, and it is zero exactly when no trade of the type lies in the window. |
| Ledger.VolumeWeightedPriceFailures | SuperSimpleStockMarket/Class1.cs:323-354 | The price fails with the no-trades error exactly on an empty ledger. It fails with the window error exactly when the ledger is non-empty but no trade of the type lies in the window. It succeeds exactly when some trade does. |
| Ledger.VolumeWeightedPriceWithinPriceRange | SuperSimpleStockMarket/Class1.cs:343-354 | The volume weighted price lies between any lower and upper bound on the prices of the trades in the window. |
| Ledger.TradeAtCutoffCounts | SuperSimpleStockMarket/Class1.cs:341 | A trade made exactly fifteen minutes before `now` is inside the window: alone, its price is the answer. |
| Ledger.RootUnique | SuperSimpleStockMarket/Class1.cs:381 | A root of positive degree denotes at most one non-negative real. |
| Ledger.AllShareIndexIgnoresOrder | SuperSimpleStockMarket/Class1.cs:373-380 | Two ledgers holding the same trades have the same index, so a preceding price query's sort does not change it. |
| Ledger.SingleTradeIndexIsItsPrice | SuperSimpleStockMarket/Class1.cs:374-381 | For a single trade the index is the first root of its price, and the only real it denotes is that price. |
| Ledger.AllShareIndexWithinPriceRange | SuperSimpleStockMarket/Class1.cs:374-381 | With non-negative bounds on every price, any real the index denotes lies between those bounds. |
| Ledger.StandardLedgerQueries | UnitTestProject/UnitTest1.cs:515-578 | For the worked example, five trades one second apart at prices 10 to 50 in quantities 1 to 5 queried within fifteen minutes: the Common price is 390/11, the Preferred price is 40, and the index is the fifth root of 12 000 000. |
| Market.KeyedRegistrySize | SuperSimpleStockMarket/Class1.cs:25-32 | In a registry where every stock sits under its own symbol, there are exactly as many distinct stocks as symbols. |
| Market.SortedCopy | SuperSimpleStockMarket/Class1.cs:333 | Sorting the ledger through an array yields a newest-first permutation of it. |
| Market.ScanWindow | SuperSimpleStockMarket/Class1.cs:336-348 | On a newest-first ledger, the early-exit scan's numerator and denominator equal the sums over every trade of the type in the window. |
| Market.StockMarket.constructor | SuperSimpleStockMarket/Class1.cs:241-245 | A new market has no stocks and no trades. |
| Market.StockMarket.AddStock | SuperSimpleStockMarket/Class1.cs:247-259 | Succeeds exactly when the symbol is not yet registered, and then adds that stock under its symbol. Otherwise the registry is unchanged. The stock count grows by one exactly on success. The ledger is untouched and the registry stays keyed by symbol. |
| Market.StockMarket.TradeSomeStock | SuperSimpleStockMarket/Class1.cs:269-294 | Succeeds exactly when the symbol is registered and quantity and price are positive. It then appends one trade stamped `now`, with the registered stock's type and the given quantity, side and price. Otherwise the ledger is unchanged. The trade count grows by one exactly on success, and the registry never changes. |
| Market.StockMarket.StockCount | SuperSimpleStockMarket/Class1.cs:300-303 | The count is the number of distinct stocks registered. |
| Market.StockMarket.TradeCount | SuperSimpleStockMarket/Class1.cs:309-312 | The count is the length of the ledger; `TradeSomeStock` states that it grows by one exactly per recorded trade. |
| Market.StockMarket.CalculateVolumeWeightedStockPrice | SuperSimpleStockMarket/Class1.cs:319-357 | The result is `VolumeWeightedPrice` of the ledger as it was before the call, with both failure cases. Afterwards the ledger is a newest-first permutation of itself. The all share index is unchanged and the registry is untouched. |
| Market.StockMarket.CalculateGBCEAllShareIndex | SuperSimpleStockMarket/Class1.cs:363-384 | The result is `AllShareIndex` of the ledger. That is an error on an empty ledger, and otherwise the root of degree equal to the number of trades of the product of all prices. The market is not modified. |

## Left out

- Floating point is not modelled. Doubles are exact reals, so there is no rounding, overflow of the price product (the library's own comment at `SuperSimpleStockMarket/Class1.cs:377-378` warns of it), NaN or signed zero. The one IEEE result the code relies on, a positive price divided by a zero rate, is modelled as `Ratio.Infinite`.
- `Math.Pow(product, 1.0 / n)` is kept symbolic as `RootOf(product, n)`, because there is no real root function to compute with. What is proved is which real a root denotes, and that it is unique.
- The system clock (`DateTime.Now`) is not modelled; it is the parameter `now`. Instants are unbounded integers, so the `DateTime` range and the exception from subtracting fifteen minutes near its minimum are not modelled.
- The library's `List.Sort` (an unstable introsort) is replaced by a selection sort with the same promise: sorted by `CompareTo`, and the same trades. The order among trades with equal timestamps is not meant to match.
- `CompareTo` on an object that is not a trade throws `ArgumentException`. Trades are typed here, so only "a trade or nothing" (`Option<Trade>`) is modelled.
- Null stocks, null symbols and the `KeyedCollection` internals are not modelled; the registry is a map from symbol to stock. So the exception `marketStocks.Contains(null)` would raise outside the `try` of `TradeSomeStock` is not modelled either.
- The `default` branch of the stock type switch in `CalculateDividendYield` is not modelled: the stock type has only the two values.
- The public setters on stock and trade fields are not modelled: nothing in the library changes a stock or trade after construction.
- `Trades.NewTrade`: quantities are unbounded integers rather than 32-bit `int`, and `StockCount` and `TradeCount` likewise do not wrap.
- Only the message of each exception is kept, as an error tag; the exception types are not.
