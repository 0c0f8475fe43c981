/** Exact resource quantities and their rounding to whole amounts. */
module Quantities {

  datatype Quantity = Quantity(amount: real, format: string)

  type ResourceList = map<string, Quantity>

  function Ceil(x: real): (r: int)
    ensures r as real - 1.0 < x <= r as real
  {
    -((-x).Floor)
  }

  /** `Quantity.Value()`: the amount rounded away from zero, which is up for every request. */
  function Value(x: real): (r: int)
    ensures x >= 0.0 ==> r as real - 1.0 < x <= r as real
    ensures x <= 0.0 ==> r as real <= x < r as real + 1.0
  {
    if x >= 0.0 then Ceil(x) else -Ceil(-x)
  }

  /** `Quantity.Add`: exact addition; a zero quantity takes over the other's format. */
  function Plus(q: Quantity, y: Quantity): Quantity {
    Quantity(q.amount + y.amount, if q.amount == 0.0 then y.format else q.format)
  }
}
