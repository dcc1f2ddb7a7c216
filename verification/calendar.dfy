/** The calendar boundary of include/unix_time.h. The platform routines
    (`timegm`/`timelocal`, `gmtime`/`localtime`, the `tm_zone` text) are not
    part of this model: they are the fields of a `Bridge` value that every
    operation needing them receives as a parameter. */
module Calendar {
  import opened DatetimeErrors

  /** The six compared fields of a `struct tm`, with its offsets: years are
      counted from 1900 and months from 0. */
  datatype Tm = Tm(yearsSince1900: int, monthIndex: int, day: int, hour: int, minute: int, second: int)

  /** What `timegm`/`timelocal` leave behind: the epoch of the fields, and the
      fields themselves written back in normalised form. */
  datatype Normalized = Normalized(fields: Tm, epoch: int)

  /** The platform's calendar routines; the flag selects UTC (true) or local time. */
  datatype Bridge = Bridge(
    normalize: (Tm, bool) -> Normalized,  // timegm / timelocal
    breakDown: (int, bool) -> Tm,         // gmtime / localtime
    zoneName: (int, bool) -> string)      // tm_zone of the broken-down time

  /** `MyTM::operator==`: the six fields agree. */
  predicate SameFields(a: Tm, b: Tm) {
    && a.yearsSince1900 == b.yearsSince1900
    && a.monthIndex == b.monthIndex
    && a.day == b.day
    && a.hour == b.hour
    && a.minute == b.minute
    && a.second == b.second
  }

  /** `my_mktime`: the epoch of the fields, rejected when normalisation moved
      any of them (day 32, hour 25, February 29 of a common year, ...). */
  function MkTime(bridge: Bridge, tm: Tm, isUtc: bool): (r: Result<int>)
    ensures r.Success? <==> bridge.normalize(tm, isUtc).fields == tm
    ensures r.Success? ==> r.value == bridge.normalize(tm, isUtc).epoch
    ensures r.Failure? ==> r.error == InvalidCalendarFields
  {
    var normalized := bridge.normalize(tm, isUtc);
    if !SameFields(tm, normalized.fields) then Failure(InvalidCalendarFields)
    else Success(normalized.epoch)
  }

  /** `my_mkStructTm`: the broken-down time of an epoch. */
  function MkStructTm(bridge: Bridge, epoch: int, isUtc: bool): Tm {
    bridge.breakDown(epoch, isUtc)
  }
}
