/** A stock listed on the market: its validated construction and the two
    pricing queries asked of it (dividend yield and price/earnings ratio).

    Prices, par values and dividends are doubles in pence in the system;
    here they are exact reals.
 */
module Stocks {
  import opened Outcomes

  datatype StockType = Common | Preferred

  /** The fixed dividend is a rate (0.02 for 2%); a stock built by the
      4-argument constructor has none. */
  datatype Stock = Stock(
    symbol: string,
    stockType: StockType,
    parValue: real,
    lastDividend: real,
    fixedDividend: Option<real>)

  // ---------------------------------------------------------------------
  // Argument checks: each yields the error it raises, or None when the
  // argument passes.

  /** A price must be positive; a negative price and a zero price are
      refused with different errors. */
  function CheckPrice(price: real): (e: Option<Error>)
    ensures e.None? <==> price > 0.0
    ensures price < 0.0 ==> e == Some(PriceNegative)
    ensures price == 0.0 ==> e == Some(PriceZero)
  {
    if price < 0.0 then Some(PriceNegative)
    else if price == 0.0 then Some(PriceZero)
    else None
  }

  /** A par value must be positive. */
  function CheckParValue(parValue: real): (e: Option<Error>)
    ensures e.None? <==> parValue > 0.0
    ensures e.Some? ==> e.value == ParValueNotPositive
  {
    if parValue <= 0.0 then Some(ParValueNotPositive) else None
  }

  /** A last dividend must not be negative. */
  function CheckLastDividend(lastDividend: real): (e: Option<Error>)
    ensures e.None? <==> lastDividend >= 0.0
    ensures e.Some? ==> e.value == LastDividendNegative
  {
    if lastDividend < 0.0 then Some(LastDividendNegative) else None
  }

  /** A fixed dividend rate must lie in [0, 1]; zero itself passes. */
  function CheckFixedDividend(fixedDividend: real): (e: Option<Error>)
    ensures e.None? <==> 0.0 <= fixedDividend <= 1.0
    ensures fixedDividend < 0.0 ==> e == Some(FixedDividendNegative)
    ensures fixedDividend > 1.0 ==> e == Some(FixedDividendAboveOne)
  {
    if fixedDividend < 0.0 then Some(FixedDividendNegative)
    else if fixedDividend > 1.0 then Some(FixedDividendAboveOne)
    else None
  }

  /** What the two constructors guarantee of every stock they build.
      A Common stock may carry a fixed dividend: the 5-argument constructor
      never looks at the stock type. */
  predicate WellFormed(s: Stock) {
    && s.parValue > 0.0
    && s.lastDividend >= 0.0
    && (s.fixedDividend.Some? ==> 0.0 <= s.fixedDividend.value <= 1.0)
    && (s.stockType == Preferred ==> s.fixedDividend.Some?)
  }

  /** The 4-argument constructor: a stock without a fixed dividend. The
      stock type is checked first, then the par value, then the last
      dividend. */
  function NewStock(symbol: string, stockType: StockType, parValue: real, lastDividend: real): (r: Result<Stock>)
    ensures r.Ok? <==> stockType == Common && parValue > 0.0 && lastDividend >= 0.0
    ensures r.Ok? ==> r.value == Stock(symbol, stockType, parValue, lastDividend, None) && WellFormed(r.value)
    ensures stockType == Preferred ==> r == Err(PreferredNeedsFixedDividend)
    ensures stockType == Common && parValue <= 0.0 ==> r == Err(ParValueNotPositive)
    ensures stockType == Common && parValue > 0.0 && lastDividend < 0.0 ==> r == Err(LastDividendNegative)
  {
    if stockType.Preferred? then Err(PreferredNeedsFixedDividend)
    else if CheckParValue(parValue).Some? then Err(CheckParValue(parValue).value)
    else if CheckLastDividend(lastDividend).Some? then Err(CheckLastDividend(lastDividend).value)
    else Ok(Stock(symbol, stockType, parValue, lastDividend, None))
  }

  /** The 5-argument constructor: par value, then last dividend, then the
      fixed dividend are checked. A fixed dividend of exactly zero passes. */
  function NewStockWithFixedDividend(symbol: string, stockType: StockType, parValue: real, lastDividend: real,
                                     fixedDividend: real): (r: Result<Stock>)
    ensures r.Ok? <==> parValue > 0.0 && lastDividend >= 0.0 && 0.0 <= fixedDividend <= 1.0
    ensures r.Ok? ==> r.value == Stock(symbol, stockType, parValue, lastDividend, Some(fixedDividend)) && WellFormed(r.value)
    ensures parValue <= 0.0 ==> r == Err(ParValueNotPositive)
    ensures parValue > 0.0 && lastDividend < 0.0 ==> r == Err(LastDividendNegative)
    ensures parValue > 0.0 && lastDividend >= 0.0 && fixedDividend < 0.0 ==> r == Err(FixedDividendNegative)
    ensures parValue > 0.0 && lastDividend >= 0.0 && fixedDividend > 1.0 ==> r == Err(FixedDividendAboveOne)
  {
    if CheckParValue(parValue).Some? then Err(CheckParValue(parValue).value)
    else if CheckLastDividend(lastDividend).Some? then Err(CheckLastDividend(lastDividend).value)
    else if CheckFixedDividend(fixedDividend).Some? then Err(CheckFixedDividend(fixedDividend).value)
    else Ok(Stock(symbol, stockType, parValue, lastDividend, Some(fixedDividend)))
  }

  /** The two constructors build exactly the well-formed stocks. */
  lemma WellFormedIffConstructed(s: Stock)
    ensures WellFormed(s) <==>
      (|| NewStock(s.symbol, s.stockType, s.parValue, s.lastDividend) == Ok(s)
       || (s.fixedDividend.Some? &&
           NewStockWithFixedDividend(s.symbol, s.stockType, s.parValue, s.lastDividend, s.fixedDividend.value) == Ok(s)))
  {
    if WellFormed(s) && s.fixedDividend.None? {
      assert s.stockType == Common;
    }
  }

  /** Every Preferred stock either constructor accepts has a fixed dividend,
      so the yield query never reaches its missing-fixed-dividend failure. */
  lemma ConstructedStockYieldDefined(symbol: string, stockType: StockType, parValue: real, lastDividend: real,
                                     fixedDividend: real, price: real)
    requires price > 0.0
    ensures var r := NewStock(symbol, stockType, parValue, lastDividend);
      r.Ok? ==> DividendYield(r.value, price).Ok?
    ensures var r := NewStockWithFixedDividend(symbol, stockType, parValue, lastDividend, fixedDividend);
      r.Ok? ==> r.value.fixedDividend.Some? && DividendYield(r.value, price).Ok?
  {
  }

  /** The dividend yield at a given price: the last dividend over the price
      for a Common stock, the fixed dividend times the par value over the
      price for a Preferred one. */
  function DividendYield(stock: Stock, price: real): (r: Result<real>)
    ensures price < 0.0 ==> r == Err(PriceNegative)
    ensures price == 0.0 ==> r == Err(PriceZero)
    ensures price > 0.0 ==> (r.Err? <==> stock.stockType == Preferred && stock.fixedDividend.None?)
    ensures price > 0.0 && r.Err? ==> r.error == FixedDividendMissing
    ensures r.Ok? && stock.stockType == Common ==> r.value * price == stock.lastDividend
    ensures r.Ok? && stock.stockType == Preferred ==>
              r.value * price == stock.fixedDividend.value * stock.parValue
    ensures price > 0.0 && WellFormed(stock) ==> r.Ok? && r.value >= 0.0
  {
    if CheckPrice(price).Some? then Err(CheckPrice(price).value)
    else match stock.stockType
      case Common => Ok(stock.lastDividend / price)
      case Preferred =>
        if stock.fixedDividend.Some? then Ok(stock.fixedDividend.value * stock.parValue / price)
        else Err(FixedDividendMissing)
  }

  /** A double quotient: a finite value, or the positive infinity that a
      positive price divided by a zero fixed dividend gives. */
  datatype Ratio = Finite(value: real) | Infinite

  /** The P/E ratio at a given price: the price over the fixed dividend,
      defined only when the stock has one (whatever its type). */
  function PERatio(stock: Stock, price: real): (r: Result<Ratio>)
    ensures price < 0.0 ==> r == Err(PriceNegative)
    ensures price == 0.0 ==> r == Err(PriceZero)
    ensures price > 0.0 ==> (r.Ok? <==> stock.fixedDividend.Some?)
    ensures price > 0.0 && stock.fixedDividend.None? ==> r == Err(NoFixedDividendForPERatio)
    ensures r.Ok? ==> (r.value.Infinite? <==> stock.fixedDividend.value == 0.0)
    ensures r.Ok? && r.value.Finite? ==> r.value.value * stock.fixedDividend.value == price
    ensures r.Ok? && r.value.Finite? && WellFormed(stock) ==> r.value.value >= price
  {
    if CheckPrice(price).Some? then Err(CheckPrice(price).value)
    else if stock.fixedDividend.None? then Err(NoFixedDividendForPERatio)
    else if stock.fixedDividend.value == 0.0 then Ok(Infinite)
    else
      var rate := stock.fixedDividend.value;
      var pe := price / rate;
      assert 0.0 < rate <= 1.0 ==> pe >= price by {
        if 0.0 < rate <= 1.0 {
          assert price > 0.0;
          assert pe > 0.0;
          assert pe * rate == price;
          assert pe - price == pe * (1.0 - rate);
          ProductNonNegative(pe, 1.0 - rate);
        }
      }
      Ok(Finite(pe))
  }

  lemma ProductNonNegative(a: real, b: real)
    requires a >= 0.0 && b >= 0.0
    ensures a * b >= 0.0
  {
  }

  /** A fixed dividend of exactly zero is accepted by the 5-argument
      constructor, and the P/E ratio of the resulting stock is infinite. */
  lemma ZeroFixedDividendAccepted(symbol: string, stockType: StockType, parValue: real, lastDividend: real,
                                  price: real)
    requires parValue > 0.0 && lastDividend >= 0.0 && price > 0.0
    ensures NewStockWithFixedDividend(symbol, stockType, parValue, lastDividend, 0.0).Ok?
    ensures PERatio(NewStockWithFixedDividend(symbol, stockType, parValue, lastDividend, 0.0).value, price) == Ok(Infinite)
  {
  }
}
