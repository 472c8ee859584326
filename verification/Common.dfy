/** Types shared by the pricing, exchange, executor and inventory models. */
module Common {

  datatype Option<+T> = None | Some(value: T)

  /** The exceptions the modelled code raises, one constructor a cause. */
  datatype Error =
    | NonPositiveAmount
    | NonPositiveReserves
    | BadFee
    | SameToken
    | TokenNotInPair
    | InsufficientLiquidity
    | EmptyRoute
    | NoRoute
    | BadSide
    | NonPositivePrice
    | NegativeFee
    | NotAV2Pair

  /** A returned value, or the exception that was raised instead. */
  datatype Result<+T> = Ok(value: T) | Err(error: Error) {
    predicate IsFailure() {
      Err?
    }

    function PropagateFailure<U>(): Result<U>
      requires Err?
    {
      Err(error)
    }

    function Extract(): T
      requires Ok?
    {
      value
    }
  }

  /** Tokens are compared by their 20-byte address alone, whatever its letter case. */
  datatype Token = Token(address: nat)

  /** The side strings of the code; anything but "buy" and "sell" is `OtherSide`. */
  datatype TradeSide = Buy | Sell | OtherSide

  /** One level of an order book. */
  datatype Level = Level(price: real, qty: real)

  ghost predicate Distinct<T>(s: seq<T>) {
    forall i, j :: 0 <= i < j < |s| ==> s[i] != s[j]
  }

  function MaxInt(a: int, b: int): int {
    if a >= b then a else b
  }

  function Max(a: real, b: real): real {
    if a >= b then a else b
  }

  function Min(a: real, b: real): real {
    if a <= b then a else b
  }
}
