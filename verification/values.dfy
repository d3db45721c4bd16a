/** Shared value types of the price-sheet pipeline: optional values, results
    with an error side, the dynamically typed cell values a decoded sheet
    holds, and the canonical four-field record that flows from the
    extractor to the reconciler.
 */
module Values {

  /** A cell or lookup that may be absent (a null cell, a missing row). */
  datatype Option<+T> = None | Some(value: T) {
    /** The held value, or `default` when absent (pandas `fillna`). */
    function GetOr(default: T): T {
      match this
      case Some(v) => v
      case None => default
    }
  }

  /** The outcome of a step that can raise. */
  datatype Result<+T, +E> = Success(value: T) | Failure(error: E)

  /** A decoded cell value. The script never converts cell values: text
      stays text and numbers stay numbers, and prices are compared with
      Python's `!=`, which is exact structural equality here. Floating-point
      rounding, NaN and signed zero are not part of the model. */
  datatype Value = Text(text: string) | Number(number: real)

  /** Default for an absent description, quantity or unit of measure. */
  const EmptyText: Value := Text("")

  /** Default for an absent price. */
  const ZeroPrice: Value := Number(0.0)

  /** One normalised price-sheet row, in the column order the SQL insert uses. */
  datatype Record = Record(description: Value, quantity: Value, uom: Value, price: Value)
}
