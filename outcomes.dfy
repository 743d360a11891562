/** Optional values, results and the failures of the stock market.

    Every exception the market's classes throw becomes one `Error` tag, one
    tag per distinct exception message, so that a caller can tell the
    failures apart exactly as the messages do.
 */
module Outcomes {

  datatype Option<+T> = None | Some(value: T)

  datatype Result<+T> = Ok(value: T) | Err(error: Error)

  datatype Error =
      // a Preferred stock built without a fixed dividend
    | PreferredNeedsFixedDividend
      // par value zero or below
    | ParValueNotPositive
      // last dividend below zero
    | LastDividendNegative
      // fixed dividend below zero (the message speaks of "greater than zero")
    | FixedDividendNegative
      // fixed dividend above one
    | FixedDividendAboveOne
      // a yield or P/E query at a price below zero
    | PriceNegative
      // a yield or P/E query at a price of exactly zero
    | PriceZero
      // a Preferred stock whose fixed dividend is absent, met by the yield query
    | FixedDividendMissing
      // a P/E query on a stock without a fixed dividend
    | NoFixedDividendForPERatio
      // a trade whose quantity is zero or below
    | TradeQuantityNotPositive
      // a trade whose price is zero or below
    | TradePriceNotPositive
      // the volume weighted price asked of an empty ledger
    | NoTradesForVolumeWeightedPrice
      // no trade of the asked type inside the fifteen-minute window
    | NoTradesInWindow
      // the all share index asked of an empty ledger
    | NoTradesForAllShareIndex
}
