/** Library-wide constants (include/datetime_constants.h). */
module DatetimeConstants {

  const DefaultInputFormat: string := "%Y/%m/%d %H:%M:%S"
  const DefaultOutputFormat: string := "%Y/%m/%d %H:%M:%S %Z"

  /** `struct tm` counts years from 1900 and months from 0. */
  const TmBaseYear: int := 1900
  const MonthOffset: int := 1

  /** The supported epoch range: 1970-01-01 00:00:00 to 3000-01-02 00:00:00 UTC. */
  const MinimumSec: int := 0
  const MaximumSec: int := 32503766400

  /** `std::numeric_limits<double>::epsilon()`, which is 2^-52. */
  const DoubleEpsilon: real := 1.0 / 4503599627370496.0
}
