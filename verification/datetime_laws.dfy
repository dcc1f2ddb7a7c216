/** Laws relating the operations of `EZ::Datetime` to one another and to the
    calendar bridge. */
module DatetimeLaws {
  import opened DatetimeErrors
  import opened DatetimeConstants
  import opened Calendar
  import opened Tokenizer
  import opened Parser
  import opened ParserLaws
  import TimeDeltas
  import opened Datetimes

  /** The difference is antisymmetric, and adding `a - b` to `b` lands on `a`
      (in `b`'s mode) whenever `a` is in range. */
  lemma DifferenceLaws(a: Datetime, b: Datetime)
    ensures Difference(a, b) == TimeDeltas.Neg(Difference(b, a))
    ensures Difference(a, a) == TimeDeltas.Zero
    ensures InRange(a.unixTime) ==>
      && PlusDelta(b, Difference(a, b)) == Success(Datetime(a.unixTime, b.isUtc))
      && Equal(PlusDelta(b, Difference(a, b)).value, a)
  {
  }

  /** `-` undoes `+` while both instants are in range, adding nothing is the
      identity on valid instants, and `-=` undoes `+=` unconditionally. */
  lemma ArithmeticRoundTrip(d: Datetime, n: int)
    ensures InRange(d.unixTime) && InRange(d.unixTime + n) ==>
      && PlusSeconds(d, n).Success?
      && MinusSeconds(PlusSeconds(d, n).value, n) == Success(d)
    ensures InRange(d.unixTime) ==> PlusSeconds(d, 0) == Success(d)
    ensures SubAssign(AddAssign(d, n), n) == d
    ensures AddAssignDelta(d, TimeDeltas.TimeDelta(n)) == AddAssign(d, n)
  {
  }

  /** The comparisons form a total preorder on instants that ignores the
      mode: exactly one of `<`, `==`, `>` holds, `<=` and `>=` are total and
      transitive, and the operators mirror one another. */
  lemma OrderLaws(a: Datetime, b: Datetime, c: Datetime)
    ensures Equal(a, a.(isUtc := !a.isUtc))
    ensures Less(a, b) || Equal(a, b) || Greater(a, b)
    ensures !(Less(a, b) && Equal(a, b)) && !(Less(a, b) && Greater(a, b)) && !(Equal(a, b) && Greater(a, b))
    ensures LessEq(a, b) || LessEq(b, a)
    ensures LessEq(a, b) && LessEq(b, c) ==> LessEq(a, c)
    ensures LessEq(a, b) && LessEq(b, a) ==> Equal(a, b)
    ensures Less(a, b) == Greater(b, a) && LessEq(a, b) == GreaterEq(b, a)
    ensures NotEqual(a, b) == !Equal(a, b)
    ensures Equal(a, b) <==> a == b.(isUtc := a.isUtc)
  {
  }

  /** The default instant is the minimum, in local time. */
  lemma DefaultIsMinimum()
    ensures Default() == Success(Minimum(false))
  {
  }

  /** Every constructed instant lies between `minimum()` and `maximum()`. */
  lemma ConstructedInRange(epoch: int, isUtc: bool)
    ensures FromEpoch(epoch, isUtc).Success? ==>
      LessEq(Minimum(isUtc), FromEpoch(epoch, isUtc).value) && LessEq(FromEpoch(epoch, isUtc).value, Maximum(isUtc))
    ensures PlusSeconds(Maximum(isUtc), 1).Failure? && MinusSeconds(Minimum(isUtc), 1).Failure?
  {
  }

  /** `+=` performs no range check, so it can leave the range; every field
      accessor then fails, while an in-range instant always reads back. */
  lemma AddAssignLeavesRange(bridge: Bridge, d: Datetime, n: int)
    ensures !InRange(d.unixTime + n) ==>
      && StructTm(bridge, AddAssign(d, n)).Failure?
      && ToVector(bridge, AddAssign(d, n)).Failure?
      && Str(bridge, AddAssign(d, n), DefaultOutputFormat).Failure?
    ensures InRange(d.unixTime + n) ==> ToVector(bridge, AddAssign(d, n)).Success?
    ensures Maximum(d.isUtc).unixTime < AddAssign(Maximum(d.isUtc), 1).unixTime
  {
  }

  /** The field constructor followed by `toVector` gives the fields back,
      when the platform breaks a normalised epoch down into the fields that
      normalisation wrote back. */
  lemma FieldsRoundTrip(bridge: Bridge, year: int, month: int, day: int, hour: int, minute: int, second: int, isUtc: bool)
    requires var tm := FieldsTm(year, month, day, hour, minute, second);
      bridge.breakDown(bridge.normalize(tm, isUtc).epoch, isUtc) == bridge.normalize(tm, isUtc).fields
    ensures FromFields(bridge, year, month, day, hour, minute, second, isUtc).Success? ==>
      ToVector(bridge, FromFields(bridge, year, month, day, hour, minute, second, isUtc).value)
        == Success([year, month, day, hour, minute, second])
  {
  }

  /** Rendering an instant and constructing one from the text gives the same
      instant back, for a format that parses its own output and for an instant
      whose broken-down fields normalise to themselves and their epoch. */
  lemma TextRoundTrip(bridge: Bridge, d: Datetime, format: string)
    requires InRange(d.unixTime)
    requires RoundTripFormat(format)
    requires Renderable(bridge.breakDown(d.unixTime, d.isUtc), Scan(Specifier, format).matches)
    requires var tm := bridge.breakDown(d.unixTime, d.isUtc);
      bridge.normalize(tm, d.isUtc) == Normalized(tm, d.unixTime)
    ensures Str(bridge, d, format).Success?
    ensures FromText(bridge, Str(bridge, d, format).value, format, d.isUtc) == Success(d)
  {
    var tm := bridge.breakDown(d.unixTime, d.isUtc);
    ParseRendering(tm, format, bridge.zoneName(d.unixTime, d.isUtc));
  }
}
