/** A trade: one validated buy or sell of some quantity of a stock type at a
    price, stamped with the moment it was made, and the ordering by which
    the ledger sorts trades (newest first).

    Timestamps are instants counted in ticks of 100 nanoseconds, as the
    system's date-time values are; quantities are integers, prices reals.
 */
module Trades {
  import opened Outcomes
  import opened Stocks

  datatype BuyOrSell = Buy | Sell

  datatype Trade = Trade(
    timestamp: int,
    stockType: StockType,
    quantity: int,
    buyOrSell: BuyOrSell,
    price: real)

  /** What the constructor guarantees of every trade it builds. */
  predicate ValidTrade(t: Trade) {
    t.quantity > 0 && t.price > 0.0
  }

  /** A traded quantity must be positive. */
  function CheckQuantity(quantity: int): (e: Option<Error>)
    ensures e.None? <==> quantity > 0
    ensures e.Some? ==> e.value == TradeQuantityNotPositive
  {
    if quantity <= 0 then Some(TradeQuantityNotPositive) else None
  }

  /** A traded price must be positive; unlike a stock's price check, zero
      and negative prices share one error. */
  function CheckTradePrice(price: real): (e: Option<Error>)
    ensures e.None? <==> price > 0.0
    ensures e.Some? ==> e.value == TradePriceNotPositive
  {
    if price <= 0.0 then Some(TradePriceNotPositive) else None
  }

  /** The trade constructor: the quantity is checked before the price. */
  function NewTrade(timestamp: int, stockType: StockType, quantity: int, buyOrSell: BuyOrSell, price: real): (r: Result<Trade>)
    ensures r.Ok? <==> quantity > 0 && price > 0.0
    ensures r.Ok? ==> r.value == Trade(timestamp, stockType, quantity, buyOrSell, price) && ValidTrade(r.value)
    ensures quantity <= 0 ==> r == Err(TradeQuantityNotPositive)
    ensures quantity > 0 && price <= 0.0 ==> r == Err(TradePriceNotPositive)
  {
    if CheckQuantity(quantity).Some? then Err(CheckQuantity(quantity).value)
    else if CheckTradePrice(price).Some? then Err(CheckTradePrice(price).value)
    else Ok(Trade(timestamp, stockType, quantity, buyOrSell, price))
  }

  /** The constructor builds exactly the valid trades, each field unchanged. */
  lemma ValidIffConstructed(t: Trade)
    ensures ValidTrade(t) <==> NewTrade(t.timestamp, t.stockType, t.quantity, t.buyOrSell, t.price) == Ok(t)
  {
  }

  /** The comparison of two instants: 1 when the first is later, -1 when it
      is earlier, 0 when they are the same. */
  function CompareInstants(a: int, b: int): (c: int)
    ensures c == 1 <==> a > b
    ensures c == -1 <==> a < b
    ensures c == 0 <==> a == b
  {
    if a > b then 1 else if a < b then -1 else 0
  }

  /** A trade compared with another trade (or with nothing): the reverse of
      the comparison of their timestamps, so the later trade comes first.
      Anything compares greater than nothing. */
  function CompareTo(t: Trade, other: Option<Trade>): (c: int)
    ensures other.None? ==> c == 1
    ensures other.Some? ==> (c < 0 <==> t.timestamp > other.value.timestamp)
    ensures other.Some? ==> (c == 0 <==> t.timestamp == other.value.timestamp)
    ensures other.Some? ==> (c > 0 <==> t.timestamp < other.value.timestamp)
    ensures -1 <= c <= 1
  {
    match other
    case None => 1
    case Some(o) => -CompareInstants(t.timestamp, o.timestamp)
  }

  /** Swapping the two trades negates the comparison. */
  lemma CompareToAntisymmetric(a: Trade, b: Trade)
    ensures CompareTo(a, Some(b)) == -CompareTo(b, Some(a))
  {
  }

  /** "Sorts no later than" is transitive, so sorting by it is meaningful. */
  lemma CompareToTransitive(a: Trade, b: Trade, c: Trade)
    requires CompareTo(a, Some(b)) <= 0 && CompareTo(b, Some(c)) <= 0
    ensures CompareTo(a, Some(c)) <= 0
  {
  }

  /** A ledger in the order the comparison sorts it: no trade compares
      greater than any trade after it. */
  predicate SortedByCompareTo(s: seq<Trade>) {
    forall i, j :: 0 <= i < j < |s| ==> CompareTo(s[i], Some(s[j])) <= 0
  }

  /** Sorted by the comparison means newest first. */
  lemma SortedIsNewestFirst(s: seq<Trade>)
    ensures SortedByCompareTo(s) <==> forall i, j :: 0 <= i < j < |s| ==> s[i].timestamp >= s[j].timestamp
  {
  }
}
