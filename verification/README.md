# Easy-Datetime-Cpp core, modelled in Dafny

This project models the core of Easy-Datetime-Cpp, a header-only C++ date and
time library, and proves properties of the model. It covers three parts:

- **The format engine** (`EZ::MyParser`, include/datetime_parser.h).
  - A format such as `%Y/%m/%d %H:%M:%S` is split into `%`+letter
    specifiers and the literal text between them.
  - A timestamp is split into maximal digit runs and the literal text between
    them.
  - The two literal lists must be equal. The specifiers then fill a six-field
    `struct tm`; unnamed fields keep their defaults.
  - `time2str` goes the other way: it interleaves the literal runs with
    zero-padded renderings of the fields.
- **Durations** (`EZ::TimeDelta`, include/time_delta.h).
  - A duration is a signed count of seconds.
  - Its day/hour/minute/second reading uses C++ truncating `/` and `%`.
  - It supports addition, subtraction, negation, the guarded delta-by-delta
    ratio, and comparisons.
- **Instants** (`EZ::Datetime`, include/datetime.h).
  - An instant is a unix epoch with a UTC/local flag.
  - Every construction path funnels into the range check 0 ..
    32503766400.
  - Instants support ± seconds or durations, instant − instant, and
    comparisons that ignore the flag.

The platform calendar is not modelled: `timegm`/`timelocal`, `gmtime`/`localtime`
and the `tm_zone` text are not part of this model. Every operation that needs
them takes a `Calendar.Bridge` value holding three functions. The one piece of
real logic on that boundary is kept: `my_mktime` fails when normalisation
changed any of the six compared fields (include/unix_time.h).

Every error the library throws, one `DatetimeException` in the source, is a
`Failure` of a `Result`. Each throw site gets its own `Error` tag.

Files:

- `errors.dfy` holds `Result`, `Option` and the error tags.
- `constants.dfy` holds the library constants.
- `truncated_division.dfy` holds C++ `/` and `%` with their laws.
- `decimal.dfy` holds numerals, `my_stoi` and zero padding.
- `tokenizer.dfy` holds `getMatchedLists`, plus an independent "leftmost
  non-overlapping matches" description proved equal to it.
- `calendar.dfy` holds the bridge and `my_mktime`.
- `parser.dfy` holds `extractTimeKeyValues`, `duplicatedKeyExists`,
  `str2time` and `time2str`.
- `parser_laws.dfy` describes `str2time` declaratively and proves the
  parse-of-rendering round trip.
- `time_delta.dfy` models `TimeDelta`.
- `datetime.dfy` models `Datetime`.
- `datetime_laws.dfy` relates the instant operations to one another and to
  the bridge.

## Model

| member | source | states |
|---|---|---|
| TruncatedDivision.QuotRem | include/time_delta.h:258-265 | C++ quotient and remainder recompose the dividend, and the remainder is smaller than the divisor. Neither result has the opposite sign of the dividend. |
| TruncatedDivision.QuotRemUnique | include/time_delta.h:258-265 | Any quotient/remainder pair that recomposes the dividend, with a small remainder of the dividend's sign, is the C++ pair. |
| TruncatedDivision.QuotQuot | include/time_delta.h:126-129 | Truncating by b and then by c equals truncating by b*c, so whole weeks of whole days are whole weeks of seconds. |
| Decimal.StringToInt | include/datetime_parser.h:315-324 | `my_stoi` succeeds exactly on a non-empty all-digit token, returning its decimal value. A token holding a non-digit is refused as invalid characters. |
| Decimal.NatToString | include/datetime_parser.h:149-150 | The stream text of a natural is non-empty, all digits, reads back as the number, and has no leading zero. |
| Decimal.ZeroPadded | include/datetime_parser.h:144-175 | `setw/right/setfill('0')` output is at least the width long and never shorter than the numeral. A non-negative value comes out as a numeral that reads back as the value. |
| Decimal.ZeroPaddedShape | include/datetime_parser.h:149-150 | The padded text is exactly max(width, numeral length) long: zeros, then the whole numeral, minus sign included. |
| Decimal.PaddedYearSuffix | include/datetime_parser.h:142-146 | For a year of at most four digits, the text after the first two characters of the padded year is two digits reading as year mod 100. |
| Tokenizer.DigitRunLength | include/datetime_parser.h:219-221 | `\d+` is greedy: the match is all digits, and the next character, if any, is not a digit. |
| Tokenizer.Scan | include/datetime_parser.h:247-296 | There is one more literal run than matches, and d[0]+m[0]+…+m[n-1]+d[n] rebuilds the input. Every match is a `%`+letter specifier or a non-empty digit run. |
| Tokenizer.ScanIffLeftmost | include/datetime_parser.h:256-263 | A split equals the scan if and only if it is the split into leftmost, non-overlapping matches (both directions). |
| Tokenizer.GetMatchedLists | include/datetime_parser.h:269-272 | The split fails, with "no specifier", exactly when no match starts anywhere in the text. Otherwise it returns the scan. |
| Tokenizer.NoDigitRunIffNoDigits | include/datetime_parser.h:269-272 | A timestamp yields no numbers exactly when it contains no digit. |
| Tokenizer.DigitRunsOfInterleaving | include/datetime_parser.h:219-221 | Numerals interleaved with digit-free literal text, where the inner runs are non-empty, scan back into exactly those numerals and literals. |
| Calendar.MkTime | include/unix_time.h:58-95 | `my_mktime` succeeds exactly when normalising the fields leaves all six unchanged, and returns the epoch of the normalisation. Otherwise the fields are rejected. |
| Parser.ToValues | include/datetime_parser.h:220-225 | Every numeric token is converted in order. The list is accepted exactly when each token is a numeral. |
| Parser.ExtractTimeKeyValues | include/datetime_parser.h:207-245 | Alignment succeeds exactly when the format holds a specifier and both texts have the same literal runs. The errors fire in source order: no specifier, no number, count mismatch, delimiter mismatch. |
| Parser.FirstRepeated | include/datetime_parser.h:298-312 | There is no repeat exactly when the keys are distinct. A reported key is the first key with a later repeat. |
| Parser.DuplicatedKeyExists | include/datetime_parser.h:298-312 | The nested loops report a duplicate exactly when the keys are not distinct, and they report the first key that is repeated later. |
| Parser.FirstRepeatedIsUnique | include/datetime_parser.h:298-312 | The first key with a later repeat is unique, so the loops and the declarative description agree on it. |
| ParserLaws.AssignFieldsOutcome | include/datetime_parser.h:52-107 | The field loop fails at the first key it does not accept: an unknown key, or a year above 3000 or below 1970, with that key's error. If every key is accepted, it fails only when `%Y` is missing. |
| ParserLaws.AssignFieldsValue | include/datetime_parser.h:44-94 | With distinct keys, a successful loop yields each named field from its number (year − 1900, month − 1) and leaves every other field as it was. |
| ParserLaws.Str2TimeSpec | include/datetime_parser.h:26-54 | Alignment errors propagate. A repeated specifier is reported as the first key with a later repeat. Otherwise the field loop decides, starting from {month 1, day 1, 00:00:00}. |
| ParserLaws.Str2TimeSuccess | include/datetime_parser.h:26-110 | A successful parse has distinct specifiers including `%Y`, and its fields are the named numbers over the defaults. |
| ParserLaws.ParseRendering | include/datetime_parser.h:26-131 | Parsing the rendering of a record gives back the record. This needs distinct input specifiers including `%Y`, digit-free literals, and non-empty inner literals. It also needs a year in [1970, 3000], non-negative fields, and unnamed fields at their defaults. |
| ParserLaws.ShortYear | include/datetime_parser.h:142-146 | `%y` is the `%Y` text minus its first two characters. For years 0..9999 that is two digits reading as year mod 100. |
| ParserLaws.YearMonth | test/testDatetime.h:164-167 | `"2020_3"` read with `"%Y_%m"` is 2020-03-01 00:00:00. |
| Parser.OutValue | include/datetime_parser.h:139-205 | A key renders exactly when it is an output specifier; an unknown key is an invalid-output-specifier error. A field is at least its width (4 for `%Y`, else 2) and, if non-negative, reads back as its calendar value (year + 1900, month + 1). `%Z` is the zone text. |
| Parser.OutValues | include/datetime_parser.h:125-128 | Rendering all keys succeeds exactly when each is an output specifier, and element i is the rendering of key i. A failure carries the invalid-output-specifier error of the first key, in order, that is not an output specifier (the throw at datetime_parser.h:199-203). |
| Parser.FirstNonOutputShift | include/datetime_parser.h:125-127 | Behind an output specifier, the first non-output key of the remaining keys is the first of the whole list, one position later. This is how the loop reaches the failing key. |
| Parser.FirstNonOutputUnique | include/datetime_parser.h:125-127 | The first non-output key is unique, so the error of a failed rendering is determined by the keys. |
| Parser.Time2Str | include/datetime_parser.h:117-131 | Rendering succeeds exactly when the format holds a specifier and all are output specifiers. The text is the format's literal runs interleaved with the renderings. A format without specifiers fails with `NoSpecifier` (datetime_parser.h:269-272). Otherwise a failure names the first specifier, in format order, that cannot be rendered. |
| TimeDeltas.FromParts | include/time_delta.h:85-89 | `set(d,h,m,s)` holds d·86400 + h·3600 + m·60 + s seconds, whatever the signs and ranges of the parts. |
| TimeDeltas.Decomposition | include/time_delta.h:258-265 | The parts recompose the total. Hours are below 24 and minutes and seconds below 60 in magnitude, and each part is zero or has the sign of the total. |
| TimeDeltas.ToVector | include/time_delta.h:135-138 | `toVector` is a canonical reading of the duration that `set` turns back into the same duration. |
| TimeDeltas.PartsRoundTrip | include/time_delta.h:85-89 | For canonical parts, `set` followed by `toVector` gives back the same parts. |
| TimeDeltas.TotalMinutes | include/time_delta.h:102-105 | Whole minutes, truncated toward zero: the remainder is below a minute and has the sign of the total. |
| TimeDeltas.TotalHours | include/time_delta.h:110-113 | Whole hours, truncated toward zero. |
| TimeDeltas.TotalDays | include/time_delta.h:118-121 | Whole days, truncated toward zero. |
| TimeDeltas.TotalWeeks | include/time_delta.h:126-129 | Whole days divided by 7 is the total truncated by a week of seconds. |
| TimeDeltas.TruncationIsQuot | include/time_delta.h:102-105 | Truncation toward zero determines the quotient uniquely. |
| TimeDeltas.Plus | include/time_delta.h:156-159 | Unary `+` and the copy constructor give back the same duration. |
| TimeDeltas.NegLaws | include/time_delta.h:160-163 | Negation is an involution and negates every part of the reading, and a duration plus its negation is zero. |
| TimeDeltas.Add | include/time_delta.h:168-180 | `+` (and `+=`) with a delta has the sum of the totals. |
| TimeDeltas.Sub | include/time_delta.h:182-185 | `-` (and `-=`) with a delta has the difference of the totals. |
| TimeDeltas.AddSeconds | include/time_delta.h:176-180 | `+` (and `+=`, time_delta.h:225-230) with integer seconds adds them to the total. |
| TimeDeltas.SubSeconds | include/time_delta.h:186-189 | `-` (and `-=`) with seconds subtracts them from the total. |
| TimeDeltas.ArithmeticLaws | include/time_delta.h:168-189 | Subtraction undoes addition, addition commutes and associates, subtracting is adding the negation, and zero is neutral. |
| TimeDeltas.DivideBy | include/time_delta.h:203-210 | Delta ÷ delta fails exactly when the divisor's total is 0, since an integer is below the double epsilon only when it is 0. Otherwise the ratio times the divisor is the dividend. |
| TimeDeltas.GreaterEqSeconds | include/time_delta.h:322-325 | `delta >= n` (equal, or greater) holds exactly when the total is at least n. |
| TimeDeltas.SecondsGreaterEq | include/time_delta.h:327-330 | `n >= delta` holds exactly when n is at least the total. |
| TimeDeltas.LessEqSeconds | include/time_delta.h:332-335 | `delta <= n` holds exactly when the total is at most n. |
| TimeDeltas.SecondsLessEq | include/time_delta.h:337-340 | `n <= delta` holds exactly when n is at most the total. |
| TimeDeltas.ComparisonLaws | include/time_delta.h:272-340 | Against seconds, exactly one of `<`, `==`, `>` holds. Each number-on-the-left operator mirrors its number-on-the-right partner, `<=` and `>=` are the negations of `>` and `<`, and delta equality is equality of totals. |
| TimeDeltas.SetExamples | test/testTimeDelta.h:213-219 | `set(-3,-4,5,0)` is −273300 seconds, and `(-1,0,0,86400)` equals the empty duration. |
| TimeDeltas.ParseTotalSecondsExamples | test/testTimeDelta.h:56-73 | 31623005 s reads {366,0,10,5}: 527050 minutes, 8784 hours, 366 days and 52 weeks. Its negation gives the negated totals. |
| TimeDeltas.TenYearsExample | test/testTimeDelta.h:172-175 | `(3650,5,5,5)` reads back as {3650,5,5,5}. |
| Datetimes.ValidateEpoch | include/datetime.h:442-457 | An epoch is accepted exactly in [0, 32503766400]. The lower bound is checked first. |
| Datetimes.FromEpoch | include/datetime.h:126-131 | The epoch constructor accepts exactly in-range epochs and stores the epoch and flag unchanged. |
| Datetimes.Minimum | include/datetime.h:406-409 | `minimum()` is in range, no later than any in-range epoch, and keeps the flag. |
| Datetimes.Maximum | include/datetime.h:416-419 | `maximum()` is in range, no earlier than any in-range epoch, and keeps the flag. |
| Datetimes.ValidateFields | include/datetime.h:461-465 | Fields pass exactly when normalisation leaves them unchanged and their epoch is in range. Normalised fields are rejected before the range is checked. |
| Datetimes.FromTm | include/datetime.h:116-121 | The `struct tm` constructor succeeds exactly on valid, in-range fields, and stores their epoch with the flag. |
| Datetimes.FromFields | include/datetime.h:148-169 | The field constructor stores year − 1900 and month − 1. It rejects values the calendar normalises (month 13, Feb 29 of a common year, hour 25, …) before the range check. |
| Datetimes.FromText | include/datetime.h:469-485 | Parse errors propagate unchanged. A calendar rejection or an out-of-range epoch becomes an illegal-time-range error naming the text. On success the epoch of the parsed fields is stored with the flag as given. |
| Datetimes.StructTm | include/datetime.h:199-203 | Reading the fields re-checks the range, failing on an out-of-range epoch. Otherwise it breaks the epoch down in the instance's mode. |
| Datetimes.ToVector | include/datetime.h:426-436 | `toVector` fails exactly off range. Otherwise it is the broken-down fields with the offsets undone (year + 1900, month + 1). |
| Datetimes.Year | include/datetime.h:316-320 | `year()` is element 0 of `toVector`, failing exactly off range. |
| Datetimes.Month | include/datetime.h:307-311 | `month()` is element 1 of `toVector`. |
| Datetimes.Day | include/datetime.h:298-302 | `day()` is element 2 of `toVector`. |
| Datetimes.Hour | include/datetime.h:289-293 | `hour()` is element 3 of `toVector`. |
| Datetimes.Minute | include/datetime.h:280-284 | `minute()` is element 4 of `toVector`. |
| Datetimes.Second | include/datetime.h:271-275 | `sec()` is element 5 of `toVector`. |
| Datetimes.Str | include/datetime.h:220-223 | `str(format)` fails off range. Otherwise it renders the broken-down fields with the instant's zone name. |
| Datetimes.PlusSeconds | include/datetime.h:492-498 | `t + n` succeeds exactly when t.epoch + n is in range, giving that epoch in t's mode. |
| Datetimes.PlusDelta | include/datetime.h:503-506 | Adding a duration succeeds exactly when the epoch plus its total seconds is in range. The result is that epoch, in the same mode. |
| Datetimes.MinusSeconds | include/datetime.h:508-511 | `t - n` succeeds exactly when t.epoch − n is in range, giving that epoch in t's mode. |
| Datetimes.MinusDelta | include/datetime.h:512-515 | Subtracting a duration succeeds exactly when the epoch minus its total seconds is in range. The result is that epoch, in the same mode. |
| Datetimes.AddAssign | include/datetime.h:527-532 | `+=` moves the epoch by n, keeps the mode, and checks nothing. |
| Datetimes.AddAssignDelta | include/datetime.h:537-540 | `+=` with a duration gives the epoch plus its total, in the same mode, with no range check. |
| Datetimes.SubAssign | include/datetime.h:542-545 | `-=` moves the epoch back by n, keeps the mode, and checks nothing. |
| Datetimes.SubAssignDelta | include/datetime.h:546-549 | `-=` with a duration gives the epoch minus its total, in the same mode, with no range check. |
| Datetimes.Difference | include/datetime.h:562-566 | `a - b` is the duration that carries b's epoch to a's. |
| Datetimes.Equal | include/datetime.h:572-576 | `==` holds exactly when the epochs are equal, whatever the modes. |
| Datetimes.NotEqual | include/datetime.h:578-581 | `!=` holds exactly when the epochs differ. |
| Datetimes.Less | include/datetime.h:583-587 | `<` holds exactly when a's epoch is earlier. |
| Datetimes.Greater | include/datetime.h:589-593 | `>` holds exactly when a's epoch is later. |
| Datetimes.LessEq | include/datetime.h:595-598 | `<=` holds exactly when a's epoch is not later. |
| Datetimes.GreaterEq | include/datetime.h:600-603 | `>=` holds exactly when a's epoch is not earlier. |
| DatetimeLaws.DifferenceLaws | include/datetime.h:562-566 | `a - b` is the negation of `b - a`, and `a - a` is zero. For in-range a, `b + (a - b)` is a's epoch in b's mode, and equal to a. |
| DatetimeLaws.ArithmeticRoundTrip | include/datetime.h:492-549 | While both instants are in range, `-` undoes `+`. Adding 0 is the identity on valid instants, and `-=` undoes `+=`. |
| DatetimeLaws.OrderLaws | include/datetime.h:572-603 | The comparisons form a total preorder that ignores the flag: trichotomy, totality, transitivity, antisymmetry up to `==`, and mirrored operators. |
| DatetimeLaws.DefaultIsMinimum | include/datetime.h:126-131 | The default instant is `minimum()` in local time. |
| DatetimeLaws.ConstructedInRange | include/datetime.h:406-419 | Every constructed instant lies between `minimum()` and `maximum()`. One second past either end is refused. |
| DatetimeLaws.AddAssignLeavesRange | include/datetime.h:199-203 | `+=` past the range leaves an instant whose `structTm`, `toVector` and `str` all fail. Within range they succeed. |
| DatetimeLaws.FieldsRoundTrip | include/datetime.h:148-169 | The field constructor followed by `toVector` gives back the fields. This assumes the platform breaks a normalised epoch into the fields normalisation wrote back. |
| DatetimeLaws.TextRoundTrip | include/datetime.h:469-485 | Constructing from the rendering of an in-range instant gives the same instant back. The format must be a round-trip format, and the bridge must map the broken-down fields to themselves and their epoch. |

## Left out

- Two concrete cases from the library's tests are not instantiated as lemmas: the tokenisation of `"%M%%H"` (test/testTimeZone.h:22-29) and the rejection of the misaligned `"_2020_10_3"` with `"%Y_%m_%d"` (test/testDatetime.h:152). The general lemmas `Tokenizer.ScanIffLeftmost` and `Parser.ExtractTimeKeyValues` cover both, but unrolling these literal strings costs too much for the verifier.

- The platform calendar (`timegm`, `timelocal`, `_mkgmtime`, `mktime`,
  `gmtime`, `localtime`, `tm_zone`) is a parameter. Leap years, time zones
  and DST are therefore not modelled, and facts that need them are stated
  under explicit hypotheses about the bridge.
- The Windows branches of `%Z` rendering and of `timezone()` are not
  modelled. On other platforms `%Z` is the zone text the bridge supplies.
- `Datetime::now` is not modelled, because it reads the clock.
- `daysOfWeek`, `isDst`, `timezone()`, `setIsUTC` and `isUTC` are not
  modelled. They read platform fields or are plain accessors of the flag,
  which is a field of the datatype.
- Floating-point scaling is not modelled: `TimeDelta` `*`, `/` by a double,
  `*=`, `/=`, and `double * TimeDelta`. The `/=` operator has no zero guard
  in the source.
- `TimeDeltas.DivideBy`: the ratio is exact real division, not IEEE double
  division. Only the zero-divisor error and the exact quotient are
  modelled.
- Overflow is not modelled: `time_t` and `long long` overflow in epoch and
  duration arithmetic, and `int` overflow of `tm` fields. All integers are
  unbounded.
- `std::stoi` throws `std::out_of_range` on a very long digit run. That is
  not modelled: digit runs are unbounded naturals.
- `Decimal.StringToInt`: on a token with non-digits, the source's message
  quotes only the first run of non-digits, while the model's error carries
  the whole token. Tokens come from `\d+`, so this path is never taken from
  `str2time`.
- `Decimal.StringToInt`: the empty token is a separate `EmptyNumber` tag. In
  the source, `std::stoi` throws `std::invalid_argument` there, not a
  library exception. It is also unreachable from `str2time`.
- Exception message texts, stream operators, `TimeDelta::str`,
  `Datetime::str` without a format, `date()` and `timesOfday()` have no rows
  of their own. The last three are `Datetimes.StrDefault`, `Datetimes.Date`
  and `Datetimes.TimeOfDay`, which are `Datetimes.Str` with a fixed format.
- The unused `split` helper and `examples/main.cpp` are not modelled.
- The `char*` and `std::string` constructor overloads collapse into one
  entry point per input kind: `FromText` and `FromTextDefault`.
- `duplicatedKeyExists` computes `size() - 1` on an unsigned size. An empty
  key list would underflow it, but the list is never empty there, because
  the format scan has already failed. The model's loop simply does not run.
- `str2time` leaves `tm_year` uninitialised until `%Y` is read. A parse
  without `%Y` always fails, so the model starts the year at 0 (1900).
- The default output format includes `%Z`, so the default `str()` text does
  not parse back with the default input format. `DatetimeLaws.TextRoundTrip`
  is stated for formats that satisfy `ParserLaws.RoundTripFormat`.
