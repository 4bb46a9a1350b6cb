/** The persisted record of one calculation (lib/types.ts:1-12). */
module Types {
  import opened Interest

  /**
   * `id`, `timestamp` and `label` (here `labelText`, since `label` is a
   * Dafny keyword) are opaque strings the caller makes from the clock; the
   * two dates are kept as calendar dates rather than their ISO-8601
   * renderings.
   */
  datatype Calculation = Calculation(
    id: string,
    timestamp: string,
    labelText: string,
    principal: real,
    interestRate: real,
    isPercentMode: bool,
    startDate: Date,
    endDate: Date,
    interest: real,
    total: real)
}
