/** Enumerations and small wrappers shared by the order book, the matching engine and the
    pre-trade risk rules. Prices are exact decimals of scale 4 (the `precision = 19, scale = 4`
    column of an order), kept here as whole ticks of 0.0001. */
module Types {

  datatype Option<+T> = None | Some(value: T)

  datatype Result<+R, +E> = Success(value: R) | Failure(error: E)

  datatype Side = Buy | Sell

  /** The Java enum `OrderType`; `type` is a keyword in Dafny, hence `kind` elsewhere. */
  datatype OrderType = Limit | Market

  datatype OrderStatus = New | Partial | Filled | Cancelled | Rejected

  /** Number of price ticks in one currency unit (scale 4). */
  const TicksPerUnit: int := 10000

  /** The side a counter order must rest on. */
  function Opposite(s: Side): (r: Side)
    ensures r != s
  {
    if s == Buy then Sell else Buy
  }

  function Min(a: int, b: int): int
  {
    if a <= b then a else b
  }
}
