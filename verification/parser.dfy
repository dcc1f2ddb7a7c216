/** `EZ::MyParser` (include/datetime_parser.h): timestamp text to calendar
    fields under a format string, and calendar fields back to text. */
module Parser {
  import opened DatetimeErrors
  import opened Decimal
  import opened Tokenizer
  import opened Calendar
  import DatetimeConstants

  /** The specifiers `str2time` accepts. */
  const InputSpecifiers: set<string> := {"%Y", "%m", "%d", "%H", "%M", "%S"}

  /** The specifiers `time2str` accepts: two more, render-only. */
  const OutputSpecifiers: set<string> := InputSpecifiers + {"%y", "%Z"}

  /** The fields before any specifier is applied. `tm_year` is left unset by
      the source; it is always overwritten, because `%Y` is mandatory. */
  const InitialTm: Tm := Tm(0, 0, 1, 0, 0, 0)

  // ---------------------------------------------------------------------------
  // Aligning a timestamp with a format.

  datatype KeyValues = KeyValues(keys: seq<string>, values: seq<int>, delims: seq<string>)

  predicate IsNumeral(s: string) {
    |s| > 0 && AllDigits(s)
  }

  /** `my_stoi` applied to every numeric token, in order. */
  function ToValues(tokens: seq<string>): (r: Result<seq<int>>)
    ensures r.Success? <==> forall i :: 0 <= i < |tokens| ==> IsNumeral(tokens[i])
    ensures r.Success? ==> |r.value| == |tokens|
    ensures r.Success? ==> forall i :: 0 <= i < |tokens| ==> r.value[i] == DigitsToNat(tokens[i])
  {
    if |tokens| == 0 then
      Success([])
    else
      var v :- StringToInt(tokens[0]);
      var rest :- ToValues(tokens[1..]);
      assert forall i :: 1 <= i < |tokens| ==> tokens[i] == tokens[1..][i - 1];
      Success([v] + rest)
  }

  /** `extractTimeKeyValues`: scan the format for specifiers and the timestamp
      for digit runs, and demand the same literal text around both. It succeeds
      exactly when the format holds a specifier and the two texts have equal
      literal runs; the checks fire in the order of the source. */
  function ExtractTimeKeyValues(timestamp: string, format: string): (r: Result<KeyValues>)
    ensures var f, t := Scan(Specifier, format), Scan(DigitRun, timestamp);
      r.Success? <==> |f.matches| > 0 && f.delims == t.delims
    ensures var f, t := Scan(Specifier, format), Scan(DigitRun, timestamp);
      r.Success? ==>
        && r.value.keys == f.matches
        && r.value.delims == f.delims
        && |r.value.values| == |t.matches|
        && forall i :: 0 <= i < |t.matches| ==> r.value.values[i] == DigitsToNat(t.matches[i])
    ensures var f, t := Scan(Specifier, format), Scan(DigitRun, timestamp);
      && (|f.matches| == 0 ==> r == Failure(NoSpecifier))
      && (|f.matches| > 0 && |t.matches| == 0 ==> r == Failure(NoSpecifier))
      && (|f.matches| > 0 && |t.matches| > 0 && |f.matches| != |t.matches| ==> r == Failure(FieldCountMismatch))
      && (|f.matches| == |t.matches| > 0 && f.delims != t.delims ==> r == Failure(DelimiterMismatch))
  {
    var f :- GetMatchedLists(Specifier, format);
    var t :- GetMatchedLists(DigitRun, timestamp);
    match ToValues(t.matches)
    case Failure(e) => Failure(e)
    case Success(values) =>
      if |f.matches| != |values| then Failure(FieldCountMismatch)
      else if f.delims != t.delims then Failure(DelimiterMismatch)
      else Success(KeyValues(f.matches, values, f.delims))
  }

  // ---------------------------------------------------------------------------
  // Duplicated specifiers.

  predicate Distinct(keys: seq<string>) {
    forall i, j :: 0 <= i < j < |keys| ==> keys[i] != keys[j]
  }

  /** Position `i` holds the first key that is repeated later on. */
  ghost predicate IsFirstRepeated(keys: seq<string>, i: int) {
    && 0 <= i < |keys|
    && (exists j :: i < j < |keys| && keys[j] == keys[i])
    && forall i', j :: 0 <= i' < i && i' < j < |keys| ==> keys[j] != keys[i']
  }

  /** The key `duplicatedKeyExists` reports: the first one with a later repeat. */
  function FirstRepeated(keys: seq<string>): (r: Option<string>)
    ensures r.None? <==> Distinct(keys)
    ensures r.Some? ==> exists i :: IsFirstRepeated(keys, i) && keys[i] == r.value
    decreases |keys|
  {
    if |keys| == 0 then
      None
    else if keys[0] in keys[1..] then
      assert IsFirstRepeated(keys, 0) by {
        var j :| 0 <= j < |keys[1..]| && keys[1..][j] == keys[0];
        assert keys[j + 1] == keys[0];
      }
      Some(keys[0])
    else
      var r := FirstRepeated(keys[1..]);
      assert forall i :: 1 <= i < |keys| ==> keys[i] == keys[1..][i - 1];
      if r.Some? then
        assert exists i :: IsFirstRepeated(keys, i) && keys[i] == r.value by {
          var i :| IsFirstRepeated(keys[1..], i) && keys[1..][i] == r.value;
          assert IsFirstRepeated(keys, i + 1);
        }
        r
      else
        r
  }

  /** `duplicatedKeyExists`, with its two nested loops. An empty list never
      reaches it (the scan has already failed). */
  method DuplicatedKeyExists(keys: seq<string>) returns (found: bool, duplicated: string)
    ensures found <==> !Distinct(keys)
    ensures found ==> FirstRepeated(keys) == Some(duplicated)
  {
    var idx := 0;
    while idx + 1 < |keys|
      invariant 0 <= idx <= |keys|
      invariant forall i, j :: 0 <= i < idx && i < j < |keys| ==> keys[j] != keys[i]
    {
      var j := idx + 1;
      while j < |keys|
        invariant idx + 1 <= j <= |keys|
        invariant forall j' :: idx < j' < j ==> keys[j'] != keys[idx]
      {
        if keys[idx] == keys[j] {
          assert IsFirstRepeated(keys, idx);
          FirstRepeatedIsUnique(keys, idx, FirstRepeated(keys));
          return true, keys[idx];
        }
        j := j + 1;
      }
      idx := idx + 1;
    }
    return false, "";
  }

  lemma FirstRepeatedIsUnique(keys: seq<string>, i: int, r: Option<string>)
    requires IsFirstRepeated(keys, i)
    requires r == FirstRepeated(keys)
    ensures r == Some(keys[i])
  {
    var i' :| IsFirstRepeated(keys, i') && keys[i'] == r.value;
    assert i' == i;
  }

  // ---------------------------------------------------------------------------
  // Filling the calendar fields.

  /** The loop of `str2time` over the aligned keys, in order: `%Y` is range
      checked, the other recognised keys are copied unchecked (the month minus
      one), an unknown key is rejected, and a missing `%Y` is rejected at the
      end. */
  function AssignFields(keys: seq<string>, values: seq<int>, time: Tm, hasYear: bool): Result<Tm>
    requires |keys| == |values|
    decreases |keys|
  {
    if |keys| == 0 then
      if hasYear then Success(time) else Failure(YearRequired)
    else
      var key, v := keys[0], values[0];
      if key == "%Y" then
        if v > 3000 then Failure(YearAbove3000)
        else if v < 1970 then Failure(YearBelow1970)
        else AssignFields(keys[1..], values[1..], time.(yearsSince1900 := v - DatetimeConstants.TmBaseYear), true)
      else if key == "%m" then
        AssignFields(keys[1..], values[1..], time.(monthIndex := v - DatetimeConstants.MonthOffset), hasYear)
      else if key == "%d" then
        AssignFields(keys[1..], values[1..], time.(day := v), hasYear)
      else if key == "%H" then
        AssignFields(keys[1..], values[1..], time.(hour := v), hasYear)
      else if key == "%M" then
        AssignFields(keys[1..], values[1..], time.(minute := v), hasYear)
      else if key == "%S" then
        AssignFields(keys[1..], values[1..], time.(second := v), hasYear)
      else
        Failure(InvalidInputSpecifier(key))
  }

  /** `str2time`: align, reject a repeated specifier, then fill the fields. */
  function Str2Time(timestamp: string, format: string): Result<Tm> {
    var kv :- ExtractTimeKeyValues(timestamp, format);
    match FirstRepeated(kv.keys)
    case Some(key) => Failure(DuplicatedSpecifier(key))
    case None => AssignFields(kv.keys, kv.values, InitialTm, false)
  }

  /** `str2time` with the default input format `%Y/%m/%d %H:%M:%S`. */
  function Str2TimeDefault(timestamp: string): Result<Tm> {
    Str2Time(timestamp, DatetimeConstants.DefaultInputFormat)
  }

  // ---------------------------------------------------------------------------
  // Rendering.

  /** The calendar value a recognised input specifier stands for. */
  function DisplayValue(time: Tm, key: string): int
    requires key in InputSpecifiers
  {
    if key == "%Y" then time.yearsSince1900 + DatetimeConstants.TmBaseYear
    else if key == "%m" then time.monthIndex + DatetimeConstants.MonthOffset
    else if key == "%d" then time.day
    else if key == "%H" then time.hour
    else if key == "%M" then time.minute
    else time.second
  }

  function Width(key: string): nat {
    if key == "%Y" then 4 else 2
  }

  /** `outValues`: one specifier rendered. Recognised fields come out
      zero-padded to their width and never cut, so a non-negative value is a
      numeral that reads back as that value; `%y` drops the first two
      characters of the `%Y` text; `%Z` is the zone text; anything else fails. */
  function OutValue(time: Tm, key: string, zone: string): (r: Result<string>)
    ensures r.Success? <==> key in OutputSpecifiers
    ensures r.Failure? ==> r.error == InvalidOutputSpecifier(key)
    ensures key in InputSpecifiers ==> r.Success? && |r.value| >= Width(key)
    ensures key in InputSpecifiers && DisplayValue(time, key) >= 0 ==>
      IsNumeral(r.value) && DigitsToNat(r.value) == DisplayValue(time, key)
    ensures key == "%Z" ==> r == Success(zone)
  {
    if key == "%y" then
      Success(ZeroPadded(time.yearsSince1900 + DatetimeConstants.TmBaseYear, 4)[2..])
    else if key == "%Y" then
      Success(ZeroPadded(time.yearsSince1900 + DatetimeConstants.TmBaseYear, 4))
    else if key == "%m" then
      Success(ZeroPadded(time.monthIndex + DatetimeConstants.MonthOffset, 2))
    else if key == "%d" then
      Success(ZeroPadded(time.day, 2))
    else if key == "%H" then
      Success(ZeroPadded(time.hour, 2))
    else if key == "%M" then
      Success(ZeroPadded(time.minute, 2))
    else if key == "%S" then
      Success(ZeroPadded(time.second, 2))
    else if key == "%Z" then
      Success(zone)
    else
      Failure(InvalidOutputSpecifier(key))
  }

  /** `keys[i]` is the first key, in order, that is not an output specifier. */
  predicate FirstNonOutput(keys: seq<string>, i: int) {
    0 <= i < |keys| && keys[i] !in OutputSpecifiers
    && forall j :: 0 <= j < i ==> keys[j] in OutputSpecifiers
  }

  /** Every key rendered, in order; the first unknown key fails with its own
      error. */
  function OutValues(time: Tm, keys: seq<string>, zone: string): (r: Result<seq<string>>)
    ensures r.Success? <==> forall i :: 0 <= i < |keys| ==> keys[i] in OutputSpecifiers
    ensures r.Success? ==> |r.value| == |keys|
    ensures r.Success? ==> forall i :: 0 <= i < |keys| ==> Success(r.value[i]) == OutValue(time, keys[i], zone)
    ensures r.Failure? ==>
      exists i :: FirstNonOutput(keys, i) && r.error == InvalidOutputSpecifier(keys[i])
  {
    if |keys| == 0 then
      Success([])
    else
      match OutValue(time, keys[0], zone)
      case Failure(e) =>
        assert FirstNonOutput(keys, 0);
        Failure(e)
      case Success(first) =>
        var rest := OutValues(time, keys[1..], zone);
        FirstNonOutputShift(keys);
        assert forall i :: 1 <= i < |keys| ==> keys[i] == keys[1..][i - 1];
        if rest.Failure? then Failure(rest.error) else Success([first] + rest.value)
  }

  /** Behind an output specifier, the first non-output key of the tail is the
      first of the whole list, one position later. */
  lemma FirstNonOutputShift(keys: seq<string>)
    requires |keys| > 0 && keys[0] in OutputSpecifiers
    ensures forall i :: FirstNonOutput(keys[1..], i) ==> FirstNonOutput(keys, i + 1) && keys[i + 1] == keys[1..][i]
  {
    forall i | FirstNonOutput(keys[1..], i)
      ensures FirstNonOutput(keys, i + 1)
    {
      forall j | 0 <= j < i + 1
        ensures keys[j] in OutputSpecifiers
      {
        if j > 0 { assert keys[j] == keys[1..][j - 1]; }
      }
    }
  }

  /** There is only one first non-output key, so the error a failed rendering
      reports is determined by the keys. */
  lemma FirstNonOutputUnique(keys: seq<string>, i: int, k: int)
    requires FirstNonOutput(keys, i) && FirstNonOutput(keys, k)
    ensures i == k
  {
  }

  /** `time2str`: the literal runs of the format with each specifier replaced by
      its rendering. A format without specifiers fails with `NoSpecifier`;
      otherwise the first specifier that cannot be rendered names the error. */
  function Time2Str(time: Tm, format: string, zone: string): (r: Result<string>)
    ensures var f := Scan(Specifier, format);
      r.Success? <==> |f.matches| > 0 && forall i :: 0 <= i < |f.matches| ==> f.matches[i] in OutputSpecifiers
    ensures var f := Scan(Specifier, format);
      r.Success? ==> r.value == Interleave(f.delims, OutValues(time, f.matches, zone).value)
    ensures |Scan(Specifier, format).matches| == 0 ==> r == Failure(NoSpecifier)
    ensures var f := Scan(Specifier, format);
      r.Failure? && |f.matches| > 0 ==>
        exists i :: FirstNonOutput(f.matches, i) && r.error == InvalidOutputSpecifier(f.matches[i])
  {
    var f :- GetMatchedLists(Specifier, format);
    var outs :- OutValues(time, f.matches, zone);
    Success(Interleave(f.delims, outs))
  }

  /** `time2str` with the default output format `%Y/%m/%d %H:%M:%S %Z`. */
  function Time2StrDefault(time: Tm, zone: string): Result<string> {
    Time2Str(time, DatetimeConstants.DefaultOutputFormat, zone)
  }
}
