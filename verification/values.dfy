/** Column values as the store hands them to the core: Python's `None`,
    integers, strings and `datetime.date` values, and a row's attribute
    values as a map from column name to value. */
module Values {

  /** A year, month and day triple, not necessarily a real calendar date. */
  datatype YMD = YMD(year: int, month: int, day: int)

  predicate IsLeapYear(year: int)
  {
    year % 4 == 0 && (year % 100 != 0 || year % 400 == 0)
  }

  function DaysInMonth(year: int, month: int): (n: int)
    requires 1 <= month <= 12
    ensures 28 <= n <= 31
  {
    if month == 2 then (if IsLeapYear(year) then 29 else 28)
    else if month in {4, 6, 9, 11} then 30
    else 31
  }

  /** The dates Python's `datetime.date` can represent (years 1 to 9999). */
  predicate ValidDate(d: YMD)
  {
    1 <= d.year <= 9999 && 1 <= d.month <= 12 && 1 <= d.day <= DaysInMonth(d.year, d.month)
  }

  type Date = d: YMD | ValidDate(d) witness YMD(1, 1, 1)

  datatype Value = NoneV | IntV(i: int) | StrV(s: string) | DateV(date: Date)

  /** The attribute values of a row, or the fields of an incoming record. */
  type Fields = map<string, Value>

  /** `getattr(row, k)` on a mapped column and `record.get(k)`: a field that
      was never given a value reads as `None`. */
  function Get(fields: Fields, k: string): Value
  {
    if k in fields then fields[k] else NoneV
  }
}
