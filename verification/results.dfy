/** Outcomes of the performance queries: a value, or the condition that stopped the computation. */
module Results {

  /** A value that may be absent (a date with no row, a label with no column). */
  datatype Option<T> = None | Some(value: T)

  /** Why a query yields no performance series. */
  datatype PerfError =
    | InsufficientHistory           // no row before the first query date inside the lookback window
    | MissingColumn(currency: string)  // a settlement currency is not a column of the table the query needs
    | MissingRate(date: int)        // a price row to be converted has no exchange-rate row on its date
    | NoWeightData                  // a weight column has no value on any date of the query block
    | ZeroDenominator               // a comparison value is zero, so its simple return is undefined

  datatype Result<T> = Ok(value: T) | Err(error: PerfError)
}
