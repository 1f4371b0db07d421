/** .NET DateTime values as the generators use them: compared with the
    current time, defaulted to DateTime.MinValue, and parsed from JSON text.
    Formatting ("MMMM dd, yyyy", "MMMM yyyy") depends on the culture and is
    left to function parameters of the generators. */
module Dates {
  import opened Basics

  /** A DateTime, as its tick count: 100-nanosecond intervals since
      midnight, January 1 of year 1 (DateTime.Ticks). */
  type Instant = int

  /** DateTime.MinValue, also the value of default(DateTime). */
  const MinValue: Instant := 0

  const TicksPerDay: int := 864_000_000_000

  predicate IsLeapYear(y: int) {
    y % 4 == 0 && (y % 100 != 0 || y % 400 == 0)
  }

  function DaysInMonth(y: int, m: int): int
    requires 1 <= m <= 12
  {
    if m == 2 then (if IsLeapYear(y) then 29 else 28)
    else if m == 4 || m == 6 || m == 9 || m == 11 then 30
    else 31
  }

  /** Days in the months of a common year before each month. */
  const DaysBeforeMonthCommon: seq<int> := [0, 31, 59, 90, 120, 151, 181, 212, 243, 273, 304, 334]

  /** Days in the months of year `y` before month `m`. */
  function DaysBeforeMonth(y: int, m: int): int
    requires 1 <= m <= 12
  {
    DaysBeforeMonthCommon[m - 1] + (if m > 2 && IsLeapYear(y) then 1 else 0)
  }

  /** Days from January 1 of year 1 to January 1 of year `y` in the
      proleptic Gregorian calendar. */
  function DaysBeforeYear(y: int): int
    requires y >= 1
  {
    var p := y - 1;
    p * 365 + p / 4 - p / 100 + p / 400
  }

  /** new DateTime(y, m, d): midnight at the start of the given day. */
  function DateOf(y: int, m: int, d: int): Instant
    requires 1 <= y <= 9999 && 1 <= m <= 12 && 1 <= d <= DaysInMonth(y, m)
  {
    (DaysBeforeYear(y) + DaysBeforeMonth(y, m) + d - 1) * TicksPerDay
  }

  /** A date as JSON text, together with what DateTime.Parse makes of it
      under the current culture (None: the text does not parse). */
  datatype DateText = DateText(text: string, parsed: Option<Instant>)

  /** `DateTime.TryParse(field?.ToString(), out var d) ? d : DateTime.MinValue`. */
  function ParsedOrMin(field: Option<DateText>): Instant {
    match field
    case Some(DateText(_, Some(t))) => t
    case _ => MinValue
  }
}
