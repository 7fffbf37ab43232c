/**
  Field values as the discount policy sees them.

  Every field of a settings row, a line item or a sales document may be
  missing, and the policy reads such fields with the host language's
  truthiness: a missing value and a zero both count as "not set".
  Numbers are exact rationals (`real`); text is `string`.
 */
module Fields {

  /** A field that may be missing: `None` when the record does not carry
      it, `Some(value)` when it does. */
  datatype Option<T> = None | Some(value: T) {

    /** The field's value when present; `fallback` otherwise. */
    function ValueOr(fallback: T): T {
      if Some? then value else fallback
    }
  }

  /** How a save ends: it proceeds, or an error thrown to the user aborts
      it. */
  datatype Save<E> = Proceeds | Throws(error: E)

  /** A numeric field is "set" when present and non-zero. */
  predicate Truthy(x: Option<real>) {
    x.Some? && x.value != 0.0
  }

  /** A text field is "set" when present and non-empty. */
  predicate TruthyText(s: Option<string>) {
    s.Some? && s.value != ""
  }

  /** Reading a numeric field with "unset means 0": a missing value and a
      stored zero both give 0, so this is simply the value or 0. */
  function OrZero(x: Option<real>): (r: real)
    ensures r == x.ValueOr(0.0)
  {
    if Truthy(x) then x.value else 0.0
  }

  /** The identity that every discount rule exempts. */
  const Administrator: string := "Administrator"
}
