/**
  The few behaviours of the .NET base library that the delivery service leans on:
  nullable values, `DateTime` as a tick count, `char.IsWhiteSpace` (which is also the
  regular-expression class `\s`), `string.IsNullOrWhiteSpace`, the UTF-16 length that
  `string.Length` reports, and the rounding conversion `Convert.ToInt32(double)`.
 */
module DotNet {

  /** A C# reference that may be null, or a `Nullable<T>`. */
  datatype Option<+T> = None | Some(value: T)

  // ---------------------------------------------------------------------------
  // DateTime
  // ---------------------------------------------------------------------------

  const TicksPerMinute: int := 600_000_000
  const TicksPerDay: int := 864_000_000_000

  /** `DateTime.MaxValue.Ticks`: the last tick of 9999-12-31. */
  const MaxTicks: int := 3_155_378_975_999_999_999

  /** A `DateTime` value: ticks since 0001-01-01 00:00, within the type's range. */
  type Ticks = t: int | 0 <= t <= MaxTicks

  /** Days of the proleptic Gregorian calendar before January 1st of year `y`. */
  function DaysBeforeYear(y: int): int
    requires 1 <= y
  {
    var p := y - 1;
    365 * p + p / 4 - p / 100 + p / 400
  }

  predicate IsLeapYear(y: int)
  {
    y % 4 == 0 && (y % 100 != 0 || y % 400 == 0)
  }

  /** Days of year `y` before the first day of month `m`. */
  function DaysBeforeMonth(y: int, m: int): int
    requires 1 <= m <= 12
  {
    var cumulative := [0, 31, 59, 90, 120, 151, 181, 212, 243, 273, 304, 334];
    cumulative[m - 1] + (if m > 2 && IsLeapYear(y) then 1 else 0)
  }

  /** The tick count of `new DateTime(y, m, d)` at midnight. */
  function DateTicks(y: int, m: int, d: int): int
    requires 1 <= y && 1 <= m <= 12 && 1 <= d
  {
    (DaysBeforeYear(y) + DaysBeforeMonth(y, m) + d - 1) * TicksPerDay
  }

  /** `new DateTime(1753, 1, 1)`: the earliest value of the SQL Server `datetime` type. */
  const Jan1st1753: Ticks := 552_877_920_000_000_000

  /** `new DateTime(9999, 12, 31)`: midnight at the start of the last representable day. */
  const Dec31st9999: Ticks := 3_155_378_112_000_000_000

  lemma CalendarConstants()
    ensures DateTicks(1753, 1, 1) == Jan1st1753
    ensures DateTicks(9999, 12, 31) == Dec31st9999
    ensures Dec31st9999 + TicksPerDay - 1 == MaxTicks
  {
  }

  /** Message of the `ArgumentOutOfRangeException` that `DateTime.AddTicks` (reached from
      `AddMinutes`) throws when the shifted value leaves the representable range. The
      other message, "Value to add was out of range.", is reserved for an argument that is
      itself beyond the minute count of the whole calendar, which a 30-minute shift never is. */
  const DateArithmeticMessage: string :=
    "The added or subtracted value results in an un-representable DateTime. (Parameter 'value')"

  /** `DateTime.AddMinutes(minutes)` for a whole number of minutes: the shifted value, or
      None where .NET throws `ArgumentOutOfRangeException`. */
  function AddMinutes(t: Ticks, minutes: int): (r: Option<Ticks>)
    ensures r.Some? <==> 0 <= t + minutes * TicksPerMinute <= MaxTicks
    ensures r.Some? ==> r.value - t == minutes * TicksPerMinute
  {
    var sum := t + minutes * TicksPerMinute;
    if 0 <= sum <= MaxTicks then Some(sum) else None
  }

  // ---------------------------------------------------------------------------
  // Characters and strings
  // ---------------------------------------------------------------------------

  /** `char.IsWhiteSpace`, which is the same set as the regular-expression class `\s`
      (`[\f\n\r\t\v\x85\p{Z}]`): the Unicode White_Space characters. */
  predicate IsWhiteSpace(c: char)
  {
    || '\t' <= c <= '\r'
    || c == ' '
    || c == '\U{85}'
    || c == '\U{A0}'
    || c == '\U{1680}'
    || '\U{2000}' <= c <= '\U{200A}'
    || c == '\U{2028}'
    || c == '\U{2029}'
    || c == '\U{202F}'
    || c == '\U{205F}'
    || c == '\U{3000}'
  }

  /** `string.IsNullOrWhiteSpace` for a non-null string. */
  predicate IsBlank(s: string)
  {
    forall i :: 0 <= i < |s| ==> IsWhiteSpace(s[i])
  }

  /** `string.Length`: the number of UTF-16 code units, where a character outside the
      Basic Multilingual Plane takes a surrogate pair. */
  function Utf16Length(s: string): (n: nat)
    ensures |s| <= n <= 2 * |s|
    ensures n == |s| <==> forall i :: 0 <= i < |s| ==> s[i] <= '\U{FFFF}'
  {
    if s == [] then 0
    else (if s[0] <= '\U{FFFF}' then 1 else 2) + Utf16Length(s[1..])
  }

  // ---------------------------------------------------------------------------
  // Numeric conversion
  // ---------------------------------------------------------------------------

  /** The least and greatest doubles that `Convert.ToInt32` accepts, as bounds. */
  const Int32LowerBound: real := -2147483648.5
  const Int32UpperBound: real := 2147483647.5

  /** `Convert.ToInt32(double)`: truncate, then step away from zero when the discarded part
      exceeds one half, or equals one half and the truncated value is odd. None is the
      `OverflowException` thrown outside [-2147483648.5, 2147483647.5). */
  function ToInt32(v: real): (r: Option<int>)
    ensures r.Some? <==> Int32LowerBound <= v < Int32UpperBound
    ensures r.Some? ==> -0.5 <= v - r.value as real <= 0.5
    ensures r.Some? && (v - r.value as real == 0.5 || v - r.value as real == -0.5) ==> r.value % 2 == 0
  {
    if v >= 0.0 then
      if v < Int32UpperBound then
        var t := v.Floor;
        var dif := v - t as real;
        Some(if dif > 0.5 || (dif == 0.5 && t % 2 != 0) then t + 1 else t)
      else None
    else
      if v >= Int32LowerBound then
        var t := -((-v).Floor);
        var dif := v - t as real;
        Some(if dif < -0.5 || (dif == -0.5 && t % 2 != 0) then t - 1 else t)
      else None
  }
}
