/** Cell values, rows, errors and the foreign library behaviour the referral
    pipeline relies on. */
module Values {

  /** A wall-clock pandas Timestamp. Ordering is field by field, so it is the
      ordering of the instants as long as both sides are expressed in the
      same zone. */
  datatype DateTime = DateTime(year: int, month: int, day: int, hour: int, minute: int, second: int)

  /** `a > b` on timestamps. */
  predicate Later(a: DateTime, b: DateTime)
  {
    if a.year != b.year then a.year > b.year
    else if a.month != b.month then a.month > b.month
    else if a.day != b.day then a.day > b.day
    else if a.hour != b.hour then a.hour > b.hour
    else if a.minute != b.minute then a.minute > b.minute
    else a.second > b.second
  }

  /** One DataFrame cell. `Null` stands for every pandas missing value
      (NaN, NaT, None). */
  datatype Value =
    | Null
    | Text(s: string)
    | Number(x: real)
    | Flag(b: bool)
    | Stamp(t: DateTime)

  /** One DataFrame row: column label to cell. */
  type Row = map<string, Value>

  /** `row.get(column)`: a missing label reads as a missing value. */
  function Get(row: Row, column: string): Value
  {
    if column in row then row[column] else Null
  }

  /** The pandas exceptions that stop the script. `DuplicateColumns` marks a
      step whose result would carry one label twice. */
  datatype Error =
    | KeyError(column: string)
    | MergeError
    | DuplicateColumns
    | TypeError(column: string)

  datatype Option<+T> = None | Some(value: T)

  datatype Result<+T> = Success(value: T) | Failure(error: Error) {
    predicate IsFailure() { Failure? }

    function PropagateFailure<U>(): Result<U>
      requires Failure?
    {
      Failure(error)
    }

    function Extract(): T
      requires Success?
    {
      value
    }
  }

  /** Library calls whose internals are not modelled:
      - parseDate: `pd.to_datetime(errors="coerce")` on one value that is
        neither missing nor already a timestamp (None when it cannot parse);
      - parseNumber: `pd.to_numeric(errors="coerce")` on one value that is
        neither missing nor already a number;
      - toLocal: `ts.tz_localize("UTC").tz_convert(zone)` (None when it raises);
      - render: `str()` of a number or a timestamp. */
  datatype Library = Library(
    parseDate: Value -> Option<DateTime>,
    parseNumber: Value -> Option<real>,
    toLocal: (DateTime, Value) -> Option<DateTime>,
    render: Value -> string)
}
