/** `EZ::Datetime` (include/datetime.h): an instant, held as a unix epoch in
    seconds, with a flag that selects UTC or local time for every conversion
    to and from calendar fields. The calendar routines come in through a
    `Bridge`. */
module Datetimes {
  import opened DatetimeErrors
  import opened DatetimeConstants
  import opened Calendar
  import opened Parser
  import opened TimeDeltas

  datatype Datetime = Datetime(unixTime: int, isUtc: bool)

  /** The epochs the library supports: 1970-01-01 to 3000-01-02 UTC. */
  predicate InRange(epoch: int) {
    MinimumSec <= epoch <= MaximumSec
  }

  // ---------------------------------------------------------------------------
  // Range checks and construction.

  /** `validateInput(time_t)`: an epoch below the minimum or above the maximum
      is refused, the lower bound checked first. */
  function ValidateEpoch(epoch: int): (r: Result<int>)
    ensures r.Success? <==> InRange(epoch)
    ensures r.Success? ==> r.value == epoch
    ensures r.Failure? ==> r.error == (if epoch < MinimumSec then BeforeMinimum else AfterMaximum)
  {
    if epoch < MinimumSec then Failure(BeforeMinimum)
    else if epoch > MaximumSec then Failure(AfterMaximum)
    else Success(epoch)
  }

  /** The epoch constructor `Datetime(unixTime, isUTC)`: range-checked, then
      stored with the flag as given. */
  function FromEpoch(epoch: int, isUtc: bool): (r: Result<Datetime>)
    ensures r.Success? <==> InRange(epoch)
    ensures r.Success? ==> r.value.unixTime == epoch && r.value.isUtc == isUtc
    ensures r.Failure? ==> r.error == (if epoch < MinimumSec then BeforeMinimum else AfterMaximum)
  {
    match ValidateEpoch(epoch)
    case Failure(e) => Failure(e)
    case Success(_) => Success(Datetime(epoch, isUtc))
  }

  /** The default constructor: epoch 0 in local time. */
  function Default(): Result<Datetime> {
    FromEpoch(0, false)
  }

  /** `minimum(isUTC)`: the earliest supported instant. */
  function Minimum(isUtc: bool): (d: Datetime)
    ensures InRange(d.unixTime) && d.isUtc == isUtc
    ensures forall e :: InRange(e) ==> d.unixTime <= e
  {
    FromEpoch(MinimumSec, isUtc).value
  }

  /** `maximum(isUTC)`: the latest supported instant. */
  function Maximum(isUtc: bool): (d: Datetime)
    ensures InRange(d.unixTime) && d.isUtc == isUtc
    ensures forall e :: InRange(e) ==> e <= d.unixTime
  {
    FromEpoch(MaximumSec, isUtc).value
  }

  /** `validateInput(struct tm)`: the fields must survive the calendar
      conversion unchanged, and their epoch must be in range. */
  function ValidateFields(bridge: Bridge, tm: Tm, isUtc: bool): (r: Result<int>)
    ensures r.Success? <==> bridge.normalize(tm, isUtc).fields == tm && InRange(bridge.normalize(tm, isUtc).epoch)
    ensures r.Success? ==> r.value == bridge.normalize(tm, isUtc).epoch
    ensures bridge.normalize(tm, isUtc).fields != tm ==> r == Failure(InvalidCalendarFields)
  {
    match MkTime(bridge, tm, isUtc)
    case Failure(e) => Failure(e)
    case Success(epoch) => ValidateEpoch(epoch)
  }

  /** The `struct tm` constructor: validated, then converted. */
  function FromTm(bridge: Bridge, tm: Tm, isUtc: bool): (r: Result<Datetime>)
    ensures r.Success? <==> bridge.normalize(tm, isUtc).fields == tm && InRange(bridge.normalize(tm, isUtc).epoch)
    ensures r.Success? ==> r.value == Datetime(bridge.normalize(tm, isUtc).epoch, isUtc)
    ensures bridge.normalize(tm, isUtc).fields != tm ==> r == Failure(InvalidCalendarFields)
  {
    match ValidateFields(bridge, tm, isUtc)
    case Failure(e) => Failure(e)
    case Success(_) =>
      match MkTime(bridge, tm, isUtc)
      case Failure(e) => Failure(e)
      case Success(epoch) => Success(Datetime(epoch, isUtc))
  }

  /** The calendar fields of a year, a month counted from 1, a day and a
      time of day, in `struct tm` form. */
  function FieldsTm(year: int, month: int, day: int, hour: int, minute: int, second: int): Tm {
    Tm(year - TmBaseYear, month - MonthOffset, day, hour, minute, second)
  }

  /** The field constructor `Datetime(year, mon, day, hour, min, sec, isUTC)`:
      the year is stored from 1900 and the month from 0; fields the calendar
      would normalise (month 13, February 29 of a common year, hour 25, ...)
      are refused before the range check. */
  function FromFields(bridge: Bridge, year: int, month: int, day: int, hour: int, minute: int, second: int, isUtc: bool): (r: Result<Datetime>)
    ensures var tm := Tm(year - 1900, month - 1, day, hour, minute, second);
      && (r.Success? <==> bridge.normalize(tm, isUtc).fields == tm && InRange(bridge.normalize(tm, isUtc).epoch))
      && (r.Success? ==> r.value == Datetime(bridge.normalize(tm, isUtc).epoch, isUtc))
      && (bridge.normalize(tm, isUtc).fields != tm ==> r == Failure(InvalidCalendarFields))
  {
    FromTm(bridge, FieldsTm(year, month, day, hour, minute, second), isUtc)
  }

  /** `setDateTime`, behind the text constructors: parse errors come first
      and unchanged; a calendar rejection or an out-of-range epoch is then
      reported as an illegal time range naming the text. */
  function FromText(bridge: Bridge, timestamp: string, format: string, isUtc: bool): (r: Result<Datetime>)
    ensures Str2Time(timestamp, format).Failure? ==> r == Failure(Str2Time(timestamp, format).error)
    ensures Str2Time(timestamp, format).Success? ==>
      var tm := Str2Time(timestamp, format).value;
      && (r.Success? <==> bridge.normalize(tm, isUtc).fields == tm && InRange(bridge.normalize(tm, isUtc).epoch))
      && (r.Success? ==> r.value == Datetime(bridge.normalize(tm, isUtc).epoch, isUtc))
      && (r.Failure? ==> r.error == IllegalTimeRange(timestamp))
  {
    match Str2Time(timestamp, format)
    case Failure(e) => Failure(e)
    case Success(tm) =>
      match MkTime(bridge, tm, isUtc)
      case Failure(_) => Failure(IllegalTimeRange(timestamp))
      case Success(epoch) =>
        match ValidateEpoch(epoch)
        case Failure(_) => Failure(IllegalTimeRange(timestamp))
        case Success(_) => Success(Datetime(epoch, isUtc))
  }

  /** The text constructors without a format read `%Y/%m/%d %H:%M:%S`. */
  function FromTextDefault(bridge: Bridge, timestamp: string, isUtc: bool): Result<Datetime> {
    FromText(bridge, timestamp, DefaultInputFormat, isUtc)
  }

  // ---------------------------------------------------------------------------
  // Reading the fields back.

  /** `structTm`: the range is checked again (an instant moved by `+=` may
      have left it), then the epoch is broken down in the instance's mode. */
  function StructTm(bridge: Bridge, d: Datetime): (r: Result<Tm>)
    ensures r.Success? <==> InRange(d.unixTime)
    ensures r.Success? ==> r.value == bridge.breakDown(d.unixTime, d.isUtc)
    ensures r.Failure? ==> r.error == (if d.unixTime < MinimumSec then BeforeMinimum else AfterMaximum)
  {
    match ValidateEpoch(d.unixTime)
    case Failure(e) => Failure(e)
    case Success(_) => Success(MkStructTm(bridge, d.unixTime, d.isUtc))
  }

  /** `toVector`: {year, month, day, hour, minute, second}, with the
      `struct tm` offsets undone. */
  function ToVector(bridge: Bridge, d: Datetime): (r: Result<seq<int>>)
    ensures r.Success? <==> InRange(d.unixTime)
    ensures r.Success? ==>
      var tm := bridge.breakDown(d.unixTime, d.isUtc);
      r.value == [tm.yearsSince1900 + 1900, tm.monthIndex + 1, tm.day, tm.hour, tm.minute, tm.second]
  {
    match StructTm(bridge, d)
    case Failure(e) => Failure(e)
    case Success(tm) =>
      Success([tm.yearsSince1900 + TmBaseYear, tm.monthIndex + MonthOffset, tm.day, tm.hour, tm.minute, tm.second])
  }

  /** `year()`: the broken-down year plus 1900. */
  function Year(bridge: Bridge, d: Datetime): (r: Result<int>)
    ensures r.Success? <==> InRange(d.unixTime)
    ensures r.Success? ==> r.value == ToVector(bridge, d).value[0]
  {
    match StructTm(bridge, d)
    case Failure(e) => Failure(e)
    case Success(tm) => Success(tm.yearsSince1900 + TmBaseYear)
  }

  /** `month()`: the broken-down month plus 1. */
  function Month(bridge: Bridge, d: Datetime): (r: Result<int>)
    ensures r.Success? <==> InRange(d.unixTime)
    ensures r.Success? ==> r.value == ToVector(bridge, d).value[1]
  {
    match StructTm(bridge, d)
    case Failure(e) => Failure(e)
    case Success(tm) => Success(tm.monthIndex + MonthOffset)
  }

  /** `day()`, `hour()`, `minute()`, `sec()`: the broken-down fields as they are. */
  function Day(bridge: Bridge, d: Datetime): (r: Result<int>)
    ensures r.Success? <==> InRange(d.unixTime)
    ensures r.Success? ==> r.value == ToVector(bridge, d).value[2]
  {
    match StructTm(bridge, d)
    case Failure(e) => Failure(e)
    case Success(tm) => Success(tm.day)
  }

  function Hour(bridge: Bridge, d: Datetime): (r: Result<int>)
    ensures r.Success? <==> InRange(d.unixTime)
    ensures r.Success? ==> r.value == ToVector(bridge, d).value[3]
  {
    match StructTm(bridge, d)
    case Failure(e) => Failure(e)
    case Success(tm) => Success(tm.hour)
  }

  function Minute(bridge: Bridge, d: Datetime): (r: Result<int>)
    ensures r.Success? <==> InRange(d.unixTime)
    ensures r.Success? ==> r.value == ToVector(bridge, d).value[4]
  {
    match StructTm(bridge, d)
    case Failure(e) => Failure(e)
    case Success(tm) => Success(tm.minute)
  }

  function Second(bridge: Bridge, d: Datetime): (r: Result<int>)
    ensures r.Success? <==> InRange(d.unixTime)
    ensures r.Success? ==> r.value == ToVector(bridge, d).value[5]
  {
    match StructTm(bridge, d)
    case Failure(e) => Failure(e)
    case Success(tm) => Success(tm.second)
  }

  /** `str(format)`: the broken-down fields rendered by `time2str`, with the
      zone name of the instant for `%Z`. */
  function Str(bridge: Bridge, d: Datetime, format: string): (r: Result<string>)
    ensures !InRange(d.unixTime) ==> r.Failure? && r.error == (if d.unixTime < MinimumSec then BeforeMinimum else AfterMaximum)
    ensures InRange(d.unixTime) ==>
      r == Time2Str(bridge.breakDown(d.unixTime, d.isUtc), format, bridge.zoneName(d.unixTime, d.isUtc))
  {
    match StructTm(bridge, d)
    case Failure(e) => Failure(e)
    case Success(tm) => Time2Str(tm, format, bridge.zoneName(d.unixTime, d.isUtc))
  }

  /** `str()` and `datetime()`: the default output format `%Y/%m/%d %H:%M:%S %Z`. */
  function StrDefault(bridge: Bridge, d: Datetime): Result<string> {
    Str(bridge, d, DefaultOutputFormat)
  }

  /** `date()`. */
  function Date(bridge: Bridge, d: Datetime): Result<string> {
    Str(bridge, d, "%Y/%m/%d")
  }

  /** `timesOfday()`. */
  function TimeOfDay(bridge: Bridge, d: Datetime): Result<string> {
    Str(bridge, d, "%H:%M:%S")
  }

  // ---------------------------------------------------------------------------
  // Arithmetic.

  /** `operator+` with seconds: a new instant in the same mode, range-checked. */
  function PlusSeconds(d: Datetime, n: int): (r: Result<Datetime>)
    ensures r.Success? <==> InRange(d.unixTime + n)
    ensures r.Success? ==> r.value == Datetime(d.unixTime + n, d.isUtc)
  {
    FromEpoch(d.unixTime + n, d.isUtc)
  }

  /** `operator+` with a duration: its total seconds are added. */
  function PlusDelta(d: Datetime, delta: TimeDelta): (r: Result<Datetime>)
    ensures r.Success? <==> InRange(d.unixTime + delta.totalSeconds)
    ensures r.Success? ==> r.value == Datetime(d.unixTime + delta.totalSeconds, d.isUtc)
  {
    PlusSeconds(d, delta.totalSeconds)
  }

  /** `operator-` with seconds: adding the negation. */
  function MinusSeconds(d: Datetime, n: int): (r: Result<Datetime>)
    ensures r.Success? <==> InRange(d.unixTime - n)
    ensures r.Success? ==> r.value == Datetime(d.unixTime - n, d.isUtc)
  {
    PlusSeconds(d, -n)
  }

  /** `operator-` with a duration. */
  function MinusDelta(d: Datetime, delta: TimeDelta): (r: Result<Datetime>)
    ensures r.Success? <==> InRange(d.unixTime - delta.totalSeconds)
    ensures r.Success? ==> r.value == Datetime(d.unixTime - delta.totalSeconds, d.isUtc)
  {
    PlusSeconds(d, -delta.totalSeconds)
  }

  /** `operator+=` with seconds: the epoch moves, the mode stays, and nothing
      is checked. */
  function AddAssign(d: Datetime, n: int): (r: Datetime)
    ensures r.isUtc == d.isUtc && r.unixTime - d.unixTime == n
  {
    d.(unixTime := d.unixTime + n)
  }

  /** `operator+=` with a duration. */
  function AddAssignDelta(d: Datetime, delta: TimeDelta): (r: Datetime)
    ensures r == Datetime(d.unixTime + delta.totalSeconds, d.isUtc)
  {
    AddAssign(d, delta.totalSeconds)
  }

  /** `operator-=` with seconds: `+=` of the negation. */
  function SubAssign(d: Datetime, n: int): (r: Datetime)
    ensures r.isUtc == d.isUtc && d.unixTime - r.unixTime == n
  {
    AddAssign(d, -n)
  }

  /** `operator-=` with a duration. */
  function SubAssignDelta(d: Datetime, delta: TimeDelta): (r: Datetime)
    ensures r == Datetime(d.unixTime - delta.totalSeconds, d.isUtc)
  {
    AddAssign(d, -delta.totalSeconds)
  }

  /** The free `operator-` between instants: the duration from `b` to `a`,
      whatever their modes. */
  function Difference(a: Datetime, b: Datetime): (r: TimeDelta)
    ensures b.unixTime + r.totalSeconds == a.unixTime
  {
    TimeDelta(a.unixTime - b.unixTime)
  }

  // ---------------------------------------------------------------------------
  // Comparisons: through the difference, so the modes never matter.

  /** `==`: the difference is zero seconds. */
  function Equal(a: Datetime, b: Datetime): (r: bool)
    ensures r <==> a.unixTime == b.unixTime
  {
    EqualSeconds(Difference(a, b), 0)
  }

  /** `!=`. */
  function NotEqual(a: Datetime, b: Datetime): (r: bool)
    ensures r <==> a.unixTime != b.unixTime
  {
    !Equal(a, b)
  }

  /** `<`: the difference is negative. */
  function Less(a: Datetime, b: Datetime): (r: bool)
    ensures r <==> a.unixTime < b.unixTime
  {
    LessSeconds(Difference(a, b), 0)
  }

  /** `>`: the difference is positive. */
  function Greater(a: Datetime, b: Datetime): (r: bool)
    ensures r <==> a.unixTime > b.unixTime
  {
    GreaterSeconds(Difference(a, b), 0)
  }

  /** `<=`: less, or equal. */
  function LessEq(a: Datetime, b: Datetime): (r: bool)
    ensures r <==> a.unixTime <= b.unixTime
  {
    Less(a, b) || Equal(a, b)
  }

  /** `>=`: greater, or equal. */
  function GreaterEq(a: Datetime, b: Datetime): (r: bool)
    ensures r <==> a.unixTime >= b.unixTime
  {
    Greater(a, b) || Equal(a, b)
  }
}
