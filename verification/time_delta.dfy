/** `EZ::TimeDelta` (include/time_delta.h): a signed duration in whole seconds.
    The source caches a day/hour/minute/second decomposition next to the
    total and recomputes it after every change; here the parts are functions
    of the total, so they always agree with it. */
module TimeDeltas {
  import opened DatetimeErrors
  import opened TruncatedDivision
  import DatetimeConstants

  const SecondsPerMinute: int := 60
  const SecondsPerHour: int := 3600
  const SecondsPerDay: int := 86400
  const DaysPerWeek: int := 7

  datatype TimeDelta = TimeDelta(totalSeconds: int)

  /** The default constructor: no time at all. */
  const Zero: TimeDelta := TimeDelta(0)

  /** `set(days, hours, minutes, seconds)` and the four-argument constructor.
      The parts are weighted and summed; they need not be in range, nor agree
      in sign. */
  function FromParts(days: int, hours: int, minutes: int, seconds: int): (d: TimeDelta)
    ensures d.totalSeconds == days * SecondsPerDay + hours * SecondsPerHour + minutes * SecondsPerMinute + seconds
  {
    TimeDelta(((days * 24 + hours) * 60 + minutes) * 60 + seconds)
  }

  // ---------------------------------------------------------------------------
  // parseTotalSeconds: the decomposition, with C++ truncating `/` and `%`.

  /** `totalDays`: whole days, truncated toward zero. */
  function Days(d: TimeDelta): int {
    Quot(d.totalSeconds, SecondsPerDay)
  }

  function Hours(d: TimeDelta): int {
    Quot(Rem(d.totalSeconds, SecondsPerDay), SecondsPerHour)
  }

  function Minutes(d: TimeDelta): int {
    Quot(Rem(Rem(d.totalSeconds, SecondsPerDay), SecondsPerHour), SecondsPerMinute)
  }

  function Seconds(d: TimeDelta): int {
    Rem(Rem(Rem(d.totalSeconds, SecondsPerDay), SecondsPerHour), SecondsPerMinute)
  }

  /** Parts of a clock reading: hours below 24, minutes and seconds below 60
      in magnitude, and no two parts of opposite sign. */
  predicate Canonical(days: int, hours: int, minutes: int, seconds: int) {
    && Abs(hours) < 24 && Abs(minutes) < 60 && Abs(seconds) < 60
    && ((days >= 0 && hours >= 0 && minutes >= 0 && seconds >= 0)
        || (days <= 0 && hours <= 0 && minutes <= 0 && seconds <= 0))
  }

  /** The decomposition recomposes the total, its parts are in range, and
      each part is zero or has the sign of the total. */
  lemma Decomposition(d: TimeDelta)
    ensures Days(d) * SecondsPerDay + Hours(d) * SecondsPerHour + Minutes(d) * SecondsPerMinute + Seconds(d)
      == d.totalSeconds
    ensures Canonical(Days(d), Hours(d), Minutes(d), Seconds(d))
    ensures d.totalSeconds >= 0 ==> Days(d) >= 0 && Hours(d) >= 0 && Minutes(d) >= 0 && Seconds(d) >= 0
    ensures d.totalSeconds <= 0 ==> Days(d) <= 0 && Hours(d) <= 0 && Minutes(d) <= 0 && Seconds(d) <= 0
  {
    var t := d.totalSeconds;
    var r1 := Rem(t, SecondsPerDay);
    var r2 := Rem(r1, SecondsPerHour);
    QuotRem(t, SecondsPerDay);
    QuotRem(r1, SecondsPerHour);
    QuotRem(r2, SecondsPerMinute);
  }

  /** `toVector`: {days, hours, minutes, seconds}, a canonical reading of the
      duration that `set` turns back into it. */
  function ToVector(d: TimeDelta): (v: seq<int>)
    ensures |v| == 4
    ensures Canonical(v[0], v[1], v[2], v[3])
    ensures d.totalSeconds >= 0 ==> forall i :: 0 <= i < 4 ==> v[i] >= 0
    ensures d.totalSeconds <= 0 ==> forall i :: 0 <= i < 4 ==> v[i] <= 0
    ensures FromParts(v[0], v[1], v[2], v[3]) == d
  {
    Decomposition(d);
    [Days(d), Hours(d), Minutes(d), Seconds(d)]
  }

  /** A canonical reading is the one `toVector` gives back: `set` followed by
      `toVector` is the identity on canonical parts. */
  lemma PartsRoundTrip(days: int, hours: int, minutes: int, seconds: int)
    requires Canonical(days, hours, minutes, seconds)
    ensures ToVector(FromParts(days, hours, minutes, seconds)) == [days, hours, minutes, seconds]
  {
    var d := FromParts(days, hours, minutes, seconds);
    var t := d.totalSeconds;
    var r2 := minutes * SecondsPerMinute + seconds;
    var r1 := hours * SecondsPerHour + r2;
    QuotRemUnique(t, SecondsPerDay, days, r1);
    QuotRemUnique(r1, SecondsPerHour, hours, r2);
    QuotRemUnique(r2, SecondsPerMinute, minutes, seconds);
  }

  // ---------------------------------------------------------------------------
  // Totals in coarser units.

  /** `totalMinutes`: the total in minutes, truncated toward zero. */
  function TotalMinutes(d: TimeDelta): (m: int)
    ensures TruncatesTo(d.totalSeconds, SecondsPerMinute, m)
  {
    QuotRem(d.totalSeconds, SecondsPerMinute);
    Quot(d.totalSeconds, SecondsPerMinute)
  }

  /** `totalHours`: the total in hours, truncated toward zero. */
  function TotalHours(d: TimeDelta): (h: int)
    ensures TruncatesTo(d.totalSeconds, SecondsPerHour, h)
  {
    QuotRem(d.totalSeconds, SecondsPerHour);
    Quot(d.totalSeconds, SecondsPerHour)
  }

  /** `totalDays`: the total in days, truncated toward zero. */
  function TotalDays(d: TimeDelta): (n: int)
    ensures TruncatesTo(d.totalSeconds, SecondsPerDay, n)
  {
    QuotRem(d.totalSeconds, SecondsPerDay);
    Days(d)
  }

  /** `totalWeeks`: whole days divided by 7. Truncating the days first and
      then the weeks is the same as truncating the seconds by a week. */
  function TotalWeeks(d: TimeDelta): (w: int)
    ensures TruncatesTo(d.totalSeconds, DaysPerWeek * SecondsPerDay, w)
  {
    QuotQuot(d.totalSeconds, SecondsPerDay, DaysPerWeek);
    QuotRem(d.totalSeconds, DaysPerWeek * SecondsPerDay);
    Quot(Days(d), DaysPerWeek)
  }

  /** Truncation toward zero pins the quotient down: any `q` with a small
      remainder of the dividend's sign is the C++ quotient. */
  lemma TruncationIsQuot(a: int, b: int, q: int)
    requires b > 0 && TruncatesTo(a, b, q)
    ensures q == Quot(a, b)
  {
    QuotRemUnique(a, b, q, a - b * q);
  }

  // ---------------------------------------------------------------------------
  // Sign and arithmetic.

  /** Unary `+` and the copy constructor. */
  function Plus(d: TimeDelta): (r: TimeDelta)
    ensures r == d
  {
    TimeDelta(d.totalSeconds)
  }

  /** Unary `-`. */
  function Neg(d: TimeDelta): TimeDelta {
    TimeDelta(-d.totalSeconds)
  }

  /** Negation is an involution and negates every part of the reading. */
  lemma NegLaws(d: TimeDelta)
    ensures Neg(Neg(d)) == d
    ensures ToVector(Neg(d)) == [-Days(d), -Hours(d), -Minutes(d), -Seconds(d)]
    ensures Add(d, Neg(d)) == Zero
  {
    NegParts(d);
  }

  lemma NegParts(d: TimeDelta)
    ensures Days(Neg(d)) == -Days(d) && Hours(Neg(d)) == -Hours(d)
    ensures Minutes(Neg(d)) == -Minutes(d) && Seconds(Neg(d)) == -Seconds(d)
  {
    var t := d.totalSeconds;
    var r1 := Rem(t, SecondsPerDay);
    var r2 := Rem(r1, SecondsPerHour);
    QuotRemNegate(t, SecondsPerDay);
    assert Rem(-t, SecondsPerDay) == -r1;
    QuotRemNegate(r1, SecondsPerHour);
    assert Rem(-r1, SecondsPerHour) == -r2;
    QuotRemNegate(r2, SecondsPerMinute);
  }

  /** `operator+` with a delta, and `+=` with a delta. */
  function Add(a: TimeDelta, b: TimeDelta): (r: TimeDelta)
    ensures r.totalSeconds == a.totalSeconds + b.totalSeconds
  {
    AddSeconds(a, b.totalSeconds)
  }

  /** `operator+` with integer seconds, and `+=` with integer seconds. */
  function AddSeconds(a: TimeDelta, n: int): (r: TimeDelta)
    ensures r.totalSeconds == a.totalSeconds + n
  {
    TimeDelta(a.totalSeconds + n)
  }

  /** `operator-` with a delta, and `-=` with a delta: adding the negated total. */
  function Sub(a: TimeDelta, b: TimeDelta): (r: TimeDelta)
    ensures r.totalSeconds == a.totalSeconds - b.totalSeconds
  {
    AddSeconds(a, -b.totalSeconds)
  }

  /** `operator-` with integer seconds, and `-=` with integer seconds. */
  function SubSeconds(a: TimeDelta, n: int): (r: TimeDelta)
    ensures r.totalSeconds == a.totalSeconds - n
  {
    AddSeconds(a, -n)
  }

  /** Durations under `+` and `-` form a group: subtraction undoes addition
      (with a delta and with seconds), addition commutes and associates, and
      subtracting is adding the negation. */
  lemma ArithmeticLaws(a: TimeDelta, b: TimeDelta, c: TimeDelta, n: int)
    ensures Sub(Add(a, b), b) == a && Add(Sub(a, b), b) == a
    ensures SubSeconds(AddSeconds(a, n), n) == a
    ensures Add(a, b) == Add(b, a)
    ensures Add(Add(a, b), c) == Add(a, Add(b, c))
    ensures Sub(a, b) == Add(a, Neg(b))
    ensures Add(a, Zero) == a
  {
  }

  /** `operator/` between deltas: the ratio of the totals, refused when the
      divisor's magnitude is below the double epsilon. */
  function DivideBy(a: TimeDelta, b: TimeDelta): (r: Result<real>)
    ensures r.Failure? <==> b.totalSeconds == 0
    ensures r.Failure? ==> r.error == DivideByNearlyZero
    ensures r.Success? ==> r.value * (b.totalSeconds as real) == a.totalSeconds as real
  {
    if (Abs(b.totalSeconds) as real) < DatetimeConstants.DoubleEpsilon then
      Failure(DivideByNearlyZero)
    else
      Success((a.totalSeconds as real) / (b.totalSeconds as real))
  }

  // ---------------------------------------------------------------------------
  // Comparisons: all of them look at the total only.

  /** `==` between deltas. */
  predicate Equal(a: TimeDelta, b: TimeDelta) {
    a.totalSeconds == b.totalSeconds
  }

  /** `!=` between deltas. */
  predicate NotEqual(a: TimeDelta, b: TimeDelta) {
    !Equal(a, b)
  }

  /** `delta == n` and `n == delta`. */
  predicate EqualSeconds(a: TimeDelta, n: int) {
    a.totalSeconds == n
  }

  predicate SecondsEqual(n: int, a: TimeDelta) {
    n == a.totalSeconds
  }

  /** `delta != n` and `n != delta`. */
  predicate NotEqualSeconds(a: TimeDelta, n: int) {
    !EqualSeconds(a, n)
  }

  predicate SecondsNotEqual(n: int, a: TimeDelta) {
    !SecondsEqual(n, a)
  }

  /** `delta > n` and `n > delta`. */
  predicate GreaterSeconds(a: TimeDelta, n: int) {
    a.totalSeconds > n
  }

  predicate SecondsGreater(n: int, a: TimeDelta) {
    n > a.totalSeconds
  }

  /** `delta < n` and `n < delta`. */
  predicate LessSeconds(a: TimeDelta, n: int) {
    a.totalSeconds < n
  }

  predicate SecondsLess(n: int, a: TimeDelta) {
    n < a.totalSeconds
  }

  /** `delta >= n` and `n >= delta`: equal, or greater. */
  function GreaterEqSeconds(a: TimeDelta, n: int): (b: bool)
    ensures b <==> a.totalSeconds >= n
  {
    EqualSeconds(a, n) || GreaterSeconds(a, n)
  }

  function SecondsGreaterEq(n: int, a: TimeDelta): (b: bool)
    ensures b <==> n >= a.totalSeconds
  {
    SecondsEqual(n, a) || SecondsGreater(n, a)
  }

  /** `delta <= n` and `n <= delta`: equal, or less. */
  function LessEqSeconds(a: TimeDelta, n: int): (b: bool)
    ensures b <==> a.totalSeconds <= n
  {
    EqualSeconds(a, n) || LessSeconds(a, n)
  }

  function SecondsLessEq(n: int, a: TimeDelta): (b: bool)
    ensures b <==> n <= a.totalSeconds
  {
    SecondsEqual(n, a) || SecondsLess(n, a)
  }

  /** Against a number of seconds, exactly one of `<`, `==`, `>` holds; each
      operator with the number on the left mirrors the one with the number on
      the right; and equal deltas compare alike against every number. */
  lemma ComparisonLaws(a: TimeDelta, b: TimeDelta, n: int)
    ensures LessSeconds(a, n) || EqualSeconds(a, n) || GreaterSeconds(a, n)
    ensures !(LessSeconds(a, n) && EqualSeconds(a, n))
    ensures !(LessSeconds(a, n) && GreaterSeconds(a, n))
    ensures !(EqualSeconds(a, n) && GreaterSeconds(a, n))
    ensures SecondsLess(n, a) == GreaterSeconds(a, n) && SecondsGreater(n, a) == LessSeconds(a, n)
    ensures SecondsEqual(n, a) == EqualSeconds(a, n) && SecondsNotEqual(n, a) == NotEqualSeconds(a, n)
    ensures SecondsLessEq(n, a) == GreaterEqSeconds(a, n) && SecondsGreaterEq(n, a) == LessEqSeconds(a, n)
    ensures LessEqSeconds(a, n) == !GreaterSeconds(a, n) && GreaterEqSeconds(a, n) == !LessSeconds(a, n)
    ensures Equal(a, b) ==> (LessSeconds(a, n) == LessSeconds(b, n) && GreaterSeconds(a, n) == GreaterSeconds(b, n))
    ensures Equal(a, b) <==> a == b
  {
  }

  // ---------------------------------------------------------------------------
  // Worked values.

  /** `set(-3, -4, 5, 0)` is -273300 seconds, and a day minus 86400 seconds
      is no time at all. */
  lemma SetExamples()
    ensures FromParts(-3, -4, 5, 0) == TimeDelta(-273300)
    ensures FromParts(-1, 0, 0, 86400) == Zero
  {
  }

  /** 31623005 seconds (366 days, 10 minutes, 5 seconds) and its negation,
      read back through every accessor. */
  lemma ParseTotalSecondsExamples()
    ensures ToVector(TimeDelta(31623005)) == [366, 0, 10, 5]
    ensures TotalMinutes(TimeDelta(31623005)) == 527050 && TotalHours(TimeDelta(31623005)) == 8784
    ensures TotalDays(TimeDelta(31623005)) == 366 && TotalWeeks(TimeDelta(31623005)) == 52
    ensures TotalMinutes(TimeDelta(-31623005)) == -527050 && TotalHours(TimeDelta(-31623005)) == -8784
    ensures TotalDays(TimeDelta(-31623005)) == -366 && TotalWeeks(TimeDelta(-31623005)) == -52
  {
    PartsRoundTrip(366, 0, 10, 5);
  }

  /** Ten years of days plus 5 hours, 5 minutes and 5 seconds keeps its parts. */
  lemma TenYearsExample()
    ensures ToVector(FromParts(3650, 5, 5, 5)) == [3650, 5, 5, 5]
  {
    PartsRoundTrip(3650, 5, 5, 5);
  }
}
