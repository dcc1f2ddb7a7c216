/** What `str2time` accepts and returns, described without its loop, and the
    round trip: parsing the rendering of calendar fields gives them back. */
module ParserLaws {
  import opened DatetimeErrors
  import opened Decimal
  import opened Tokenizer
  import opened Calendar
  import opened Parser

  // ---------------------------------------------------------------------------
  // The field loop, described key by key.

  /** A key the loop passes over without failing. */
  predicate KeyAccepted(key: string, v: int) {
    key in InputSpecifiers && (key == "%Y" ==> 1970 <= v <= 3000)
  }

  /** The error a key that is not accepted raises. */
  function Rejection(key: string, v: int): Error {
    if key != "%Y" then InvalidInputSpecifier(key)
    else if v > 3000 then YearAbove3000
    else YearBelow1970
  }

  /** The loop fails at the first key it does not accept, with that key's
      error; when every key is accepted it fails only for want of `%Y`. */
  lemma {:induction false} AssignFieldsOutcome(keys: seq<string>, values: seq<int>, time: Tm, hasYear: bool)
    requires |keys| == |values|
    ensures var r := AssignFields(keys, values, time, hasYear);
      (forall i :: 0 <= i < |keys| ==> KeyAccepted(keys[i], values[i])) ==>
        && (r.Success? <==> hasYear || "%Y" in keys)
        && (r.Failure? ==> r.error == YearRequired)
    ensures var r := AssignFields(keys, values, time, hasYear);
      forall i :: (0 <= i < |keys| && !KeyAccepted(keys[i], values[i])
                   && forall j :: 0 <= j < i ==> KeyAccepted(keys[j], values[j])) ==>
        r == Failure(Rejection(keys[i], values[i]))
  {
    if forall i :: 0 <= i < |keys| ==> KeyAccepted(keys[i], values[i]) {
      AllAcceptedOutcome(keys, values, time, hasYear);
    }
    forall i | 0 <= i < |keys| && !KeyAccepted(keys[i], values[i])
               && forall j :: 0 <= j < i ==> KeyAccepted(keys[j], values[j])
      ensures AssignFields(keys, values, time, hasYear) == Failure(Rejection(keys[i], values[i]))
    {
      RejectionOutcome(keys, values, time, hasYear, i);
    }
  }

  /** An accepted first key is applied and the loop carries on with the rest. */
  lemma AssignFieldsStep(keys: seq<string>, values: seq<int>, time: Tm, hasYear: bool)
    requires |keys| == |values| > 0 && KeyAccepted(keys[0], values[0])
    ensures AssignFields(keys, values, time, hasYear)
      == AssignFields(keys[1..], values[1..], Assign(time, keys[0], values[0]), hasYear || keys[0] == "%Y")
  {
  }

  lemma {:induction false} AllAcceptedOutcome(keys: seq<string>, values: seq<int>, time: Tm, hasYear: bool)
    requires |keys| == |values|
    requires forall i :: 0 <= i < |keys| ==> KeyAccepted(keys[i], values[i])
    ensures var r := AssignFields(keys, values, time, hasYear);
      && (r.Success? <==> hasYear || "%Y" in keys)
      && (r.Failure? ==> r.error == YearRequired)
    decreases |keys|
  {
    if |keys| > 0 {
      AssignFieldsStep(keys, values, time, hasYear);
      forall i | 0 <= i < |keys| - 1
        ensures KeyAccepted(keys[1..][i], values[1..][i])
      {
        assert keys[1..][i] == keys[i + 1] && values[1..][i] == values[i + 1];
      }
      AllAcceptedOutcome(keys[1..], values[1..], Assign(time, keys[0], values[0]), hasYear || keys[0] == "%Y");
      assert "%Y" in keys <==> keys[0] == "%Y" || "%Y" in keys[1..] by {
        assert keys == [keys[0]] + keys[1..];
      }
    }
  }

  lemma {:induction false} RejectionOutcome(keys: seq<string>, values: seq<int>, time: Tm, hasYear: bool, i: nat)
    requires |keys| == |values|
    requires i < |keys| && !KeyAccepted(keys[i], values[i])
    requires forall j :: 0 <= j < i ==> KeyAccepted(keys[j], values[j])
    ensures AssignFields(keys, values, time, hasYear) == Failure(Rejection(keys[i], values[i]))
    decreases i
  {
    if i > 0 {
      AssignFieldsStep(keys, values, time, hasYear);
      assert keys[1..][i - 1] == keys[i] && values[1..][i - 1] == values[i];
      forall j | 0 <= j < i - 1
        ensures KeyAccepted(keys[1..][j], values[1..][j])
      {
        assert keys[1..][j] == keys[j + 1] && values[1..][j] == values[j + 1];
      }
      RejectionOutcome(keys[1..], values[1..], Assign(time, keys[0], values[0]), hasYear || keys[0] == "%Y", i - 1);
    }
  }

  /** One step of the loop on an accepted key. */
  function Assign(time: Tm, key: string, v: int): Tm {
    if key == "%Y" then time.(yearsSince1900 := v - 1900)
    else if key == "%m" then time.(monthIndex := v - 1)
    else if key == "%d" then time.(day := v)
    else if key == "%H" then time.(hour := v)
    else if key == "%M" then time.(minute := v)
    else time.(second := v)
  }

  /** The position of `key` in `keys`. */
  function IndexOf(keys: seq<string>, key: string): (i: nat)
    requires key in keys
    ensures i < |keys| && keys[i] == key
    ensures forall j :: 0 <= j < i ==> keys[j] != key
  {
    if keys[0] == key then 0 else 1 + IndexOf(keys[1..], key)
  }

  /** The number given for `key`, or `default` when the format does not name it. */
  function ValueFor(keys: seq<string>, values: seq<int>, key: string, default: int): int
    requires |keys| == |values|
  {
    if key in keys then values[IndexOf(keys, key)] else default
  }

  /** The fields a successful parse produces: each named field from its number
      (year minus 1900, month minus 1), every other field as it was. */
  function Assigned(keys: seq<string>, values: seq<int>, base: Tm): Tm
    requires |keys| == |values|
  {
    Tm(ValueFor(keys, values, "%Y", base.yearsSince1900 + 1900) - 1900,
       ValueFor(keys, values, "%m", base.monthIndex + 1) - 1,
       ValueFor(keys, values, "%d", base.day),
       ValueFor(keys, values, "%H", base.hour),
       ValueFor(keys, values, "%M", base.minute),
       ValueFor(keys, values, "%S", base.second))
  }

  /** With distinct keys, a successful loop leaves exactly the `Assigned` fields. */
  lemma {:induction false} AssignFieldsValue(keys: seq<string>, values: seq<int>, time: Tm, hasYear: bool)
    requires |keys| == |values| && Distinct(keys)
    ensures var r := AssignFields(keys, values, time, hasYear);
      r.Success? ==> r.value == Assigned(keys, values, time)
    decreases |keys|
  {
    if |keys| > 0 && KeyAccepted(keys[0], values[0]) {
      var key, v := keys[0], values[0];
      var keys', values' := keys[1..], values[1..];
      var time' := Assign(time, key, v);
      assert Distinct(keys');
      assert key !in keys';
      AssignFieldsValue(keys', values', time', hasYear || key == "%Y");
      assert AssignFields(keys, values, time, hasYear) == AssignFields(keys', values', time', hasYear || key == "%Y");
      forall k, d | k in InputSpecifiers
        ensures ValueFor(keys', values', k, if k == key then v else d) == ValueFor(keys, values, k, d)
      {
        ValueForTail(keys, values, k, d);
      }
      AssignedStep(keys, values, time);
    }
  }

  lemma ValueForTail(keys: seq<string>, values: seq<int>, k: string, d: int)
    requires |keys| == |values| > 0 && Distinct(keys)
    ensures ValueFor(keys[1..], values[1..], k, if k == keys[0] then values[0] else d) == ValueFor(keys, values, k, d)
  {
    if k != keys[0] && k in keys {
      assert k in keys[1..];
      IndexOfTail(keys, k);
    } else if k == keys[0] {
      assert k !in keys[1..];
    }
  }

  lemma IndexOfTail(keys: seq<string>, k: string)
    requires k in keys && k != keys[0]
    ensures k in keys[1..] && IndexOf(keys, k) == 1 + IndexOf(keys[1..], k)
  {
  }

  lemma AssignedStep(keys: seq<string>, values: seq<int>, time: Tm)
    requires |keys| == |values| > 0 && KeyAccepted(keys[0], values[0])
    requires forall k, d :: k in InputSpecifiers ==>
      ValueFor(keys[1..], values[1..], k, if k == keys[0] then values[0] else d) == ValueFor(keys, values, k, d)
    ensures Assigned(keys[1..], values[1..], Assign(time, keys[0], values[0])) == Assigned(keys, values, time)
  {
    var key, v := keys[0], values[0];
    var time' := Assign(time, key, v);
    var keys', values' := keys[1..], values[1..];
    assert ValueFor(keys', values', "%Y", time'.yearsSince1900 + 1900) == ValueFor(keys, values, "%Y", time.yearsSince1900 + 1900);
    assert ValueFor(keys', values', "%m", time'.monthIndex + 1) == ValueFor(keys, values, "%m", time.monthIndex + 1);
    assert ValueFor(keys', values', "%d", time'.day) == ValueFor(keys, values, "%d", time.day);
    assert ValueFor(keys', values', "%H", time'.hour) == ValueFor(keys, values, "%H", time.hour);
    assert ValueFor(keys', values', "%M", time'.minute) == ValueFor(keys, values, "%M", time.minute);
    assert ValueFor(keys', values', "%S", time'.second) == ValueFor(keys, values, "%S", time.second);
  }

  // ---------------------------------------------------------------------------
  // str2time as a whole.

  /** After a successful alignment, a repeated specifier is reported (the first
      key that is repeated later); otherwise the field loop decides. */
  lemma Str2TimeSpec(timestamp: string, format: string)
    ensures var kv := ExtractTimeKeyValues(timestamp, format);
      kv.Failure? ==> Str2Time(timestamp, format) == Failure(kv.error)
    ensures var kv := ExtractTimeKeyValues(timestamp, format);
      kv.Success? && !Distinct(kv.value.keys) ==>
        exists i :: IsFirstRepeated(kv.value.keys, i)
          && Str2Time(timestamp, format) == Failure(DuplicatedSpecifier(kv.value.keys[i]))
    ensures var kv := ExtractTimeKeyValues(timestamp, format);
      kv.Success? && Distinct(kv.value.keys) ==>
        Str2Time(timestamp, format) == AssignFields(kv.value.keys, kv.value.values, InitialTm, false)
  {
    var kv := ExtractTimeKeyValues(timestamp, format);
    if kv.Success? {
      var keys := kv.value.keys;
      if !Distinct(keys) {
        var r := FirstRepeated(keys);
        assert r.Some?;
        assert Str2Time(timestamp, format) == Failure(DuplicatedSpecifier(r.value));
      }
    }
  }

  /** A successful parse names `%Y`, has distinct specifiers, and yields the
      `Assigned` fields over the defaults {month 1, day 1, 00:00:00}. */
  lemma Str2TimeSuccess(timestamp: string, format: string)
    requires Str2Time(timestamp, format).Success?
    ensures var kv := ExtractTimeKeyValues(timestamp, format);
      && kv.Success? && Distinct(kv.value.keys) && "%Y" in kv.value.keys
      && Str2Time(timestamp, format).value == Assigned(kv.value.keys, kv.value.values, InitialTm)
  {
    Str2TimeSpec(timestamp, format);
    var kv := ExtractTimeKeyValues(timestamp, format);
    var keys, values := kv.value.keys, kv.value.values;
    AssignFieldsValue(keys, values, InitialTm, false);
    if "%Y" !in keys {
      FirstRejectionExists(keys, values);
    }
  }

  /** Without `%Y`, some key is the first one the loop does not accept, or the
      loop reports the missing year. */
  lemma FirstRejectionExists(keys: seq<string>, values: seq<int>)
    requires |keys| == |values| && "%Y" !in keys
    ensures AssignFields(keys, values, InitialTm, false).Failure?
  {
    AssignFieldsOutcome(keys, values, InitialTm, false);
    if !forall i :: 0 <= i < |keys| ==> KeyAccepted(keys[i], values[i]) {
      var i := FirstUnaccepted(keys, values);
    }
  }

  function FirstUnaccepted(keys: seq<string>, values: seq<int>): (i: nat)
    requires |keys| == |values|
    requires exists i :: 0 <= i < |keys| && !KeyAccepted(keys[i], values[i])
    ensures i < |keys| && !KeyAccepted(keys[i], values[i])
    ensures forall j :: 0 <= j < i ==> KeyAccepted(keys[j], values[j])
  {
    if !KeyAccepted(keys[0], values[0]) then 0
    else
      assert exists i :: 0 <= i < |keys[1..]| && !KeyAccepted(keys[1..][i], values[1..][i]) by {
        var i :| 0 <= i < |keys| && !KeyAccepted(keys[i], values[i]);
        assert keys[1..][i - 1] == keys[i];
      }
      1 + FirstUnaccepted(keys[1..], values[1..])
  }

  // ---------------------------------------------------------------------------
  // The round trip.

  /** Formats whose rendering parses back: distinct parse specifiers including
      `%Y`, literal text without digits, and literal text between two
      specifiers that is not empty (two adjacent numbers would merge). */
  ghost predicate RoundTripFormat(format: string) {
    var f := Scan(Specifier, format);
    && |f.matches| > 0
    && Distinct(f.matches)
    && (forall i :: 0 <= i < |f.matches| ==> f.matches[i] in InputSpecifiers)
    && "%Y" in f.matches
    && (forall i :: 0 <= i < |f.delims| ==> NoDigits(f.delims[i]))
    && (forall i :: 0 < i < |f.matches| ==> f.delims[i] != "")
  }

  /** Fields that survive rendering under specifiers `keys`: the year is in the
      parseable range, no field is negative, and every field the format does
      not name already has its default. */
  ghost predicate Renderable(time: Tm, keys: seq<string>) {
    && 1970 <= time.yearsSince1900 + 1900 <= 3000
    && time.monthIndex + 1 >= 0 && time.day >= 0 && time.hour >= 0 && time.minute >= 0 && time.second >= 0
    && ("%m" !in keys ==> time.monthIndex == InitialTm.monthIndex)
    && ("%d" !in keys ==> time.day == InitialTm.day)
    && ("%H" !in keys ==> time.hour == InitialTm.hour)
    && ("%M" !in keys ==> time.minute == InitialTm.minute)
    && ("%S" !in keys ==> time.second == InitialTm.second)
  }

  lemma ParseRendering(time: Tm, format: string, zone: string)
    requires RoundTripFormat(format)
    requires Renderable(time, Scan(Specifier, format).matches)
    ensures Time2Str(time, format, zone).Success?
    ensures Str2Time(Time2Str(time, format, zone).value, format) == Success(time)
  {
    RenderingAligns(time, format, zone);
    var text := Time2Str(time, format, zone).value;
    var kv := ExtractTimeKeyValues(text, format).value;
    var keys, values := kv.keys, kv.values;
    forall i | 0 <= i < |keys|
      ensures KeyAccepted(keys[i], values[i])
    {
    }
    Str2TimeSpec(text, format);
    AllAcceptedOutcome(keys, values, InitialTm, false);
    Str2TimeSuccess(text, format);
    AssignedFromDisplay(keys, values, time);
  }

  /** The rendering lines up with its own format: the numbers read back from
      it are the calendar values of the format's specifiers, in order. */
  lemma RenderingAligns(time: Tm, format: string, zone: string)
    requires RoundTripFormat(format)
    requires Renderable(time, Scan(Specifier, format).matches)
    ensures Time2Str(time, format, zone).Success?
    ensures var kv := ExtractTimeKeyValues(Time2Str(time, format, zone).value, format);
      && kv.Success?
      && kv.value.keys == Scan(Specifier, format).matches
      && |kv.value.values| == |kv.value.keys|
      && forall i :: 0 <= i < |kv.value.keys| ==>
           kv.value.keys[i] in InputSpecifiers && kv.value.values[i] == DisplayValue(time, kv.value.keys[i])
  {
    var f := Scan(Specifier, format);
    var keys := f.matches;
    var outs := OutValues(time, keys, zone).value;
    var text := Time2Str(time, format, zone).value;
    assert text == Interleave(f.delims, outs);
    forall i | 0 <= i < |keys|
      ensures IsNumeral(outs[i]) && DigitsToNat(outs[i]) == DisplayValue(time, keys[i])
    {
      var key := keys[i];
      assert key in InputSpecifiers;
      assert Success(outs[i]) == OutValue(time, key, zone);
      RenderedField(time, key, zone);
    }
    DigitRunsOfInterleaving(outs, f.delims);
  }

  /** A field that is not negative renders as a numeral of its value. */
  lemma RenderedField(time: Tm, key: string, zone: string)
    requires key in InputSpecifiers
    requires 1970 <= time.yearsSince1900 + 1900
    requires time.monthIndex + 1 >= 0 && time.day >= 0 && time.hour >= 0 && time.minute >= 0 && time.second >= 0
    ensures DisplayValue(time, key) >= 0
    ensures OutValue(time, key, zone).Success?
    ensures IsNumeral(OutValue(time, key, zone).value)
    ensures DigitsToNat(OutValue(time, key, zone).value) == DisplayValue(time, key)
  {
  }

  lemma AssignedFromDisplay(keys: seq<string>, values: seq<int>, time: Tm)
    requires |keys| == |values|
    requires forall i :: 0 <= i < |keys| ==> keys[i] in InputSpecifiers && values[i] == DisplayValue(time, keys[i])
    requires "%Y" in keys
    requires Renderable(time, keys)
    ensures Assigned(keys, values, InitialTm) == time
  {
    var _ := IndexOf(keys, "%Y");
    if "%m" in keys { var _ := IndexOf(keys, "%m"); }
    if "%d" in keys { var _ := IndexOf(keys, "%d"); }
    if "%H" in keys { var _ := IndexOf(keys, "%H"); }
    if "%M" in keys { var _ := IndexOf(keys, "%M"); }
    if "%S" in keys { var _ := IndexOf(keys, "%S"); }
  }

  // ---------------------------------------------------------------------------
  // The two-digit year.

  /** `%y` is the `%Y` text without its first two characters; for a year of
      at most four digits that is two digits reading as the year modulo 100. */
  lemma ShortYear(time: Tm, zone: string)
    ensures OutValue(time, "%y", zone) == Success(OutValue(time, "%Y", zone).value[2..])
    ensures var year := time.yearsSince1900 + 1900;
      0 <= year <= 9999 ==>
        var short := OutValue(time, "%y", zone).value;
        |short| == 2 && IsNumeral(short) && DigitsToNat(short) == year % 100
  {
    var year := time.yearsSince1900 + 1900;
    if 0 <= year <= 9999 {
      PaddedYearSuffix(year);
    }
  }

  // ---------------------------------------------------------------------------
  // A worked value.

  lemma YearMonthFormatTokens()
    ensures Scan(Specifier, "%Y_%m") == Tokens(["%Y", "%m"], ["", "_", ""])
  {
    var m, um, f := "%m", "_%m", "%Y_%m";
    assert m[2..] == "" && um[1..] == m && f[2..] == um;
    assert m[..2] == m && f[..2] == "%Y";
    ScanMatchStep(Specifier, m, Tokens([], [""]));
    ScanLiteralStep(Specifier, um, Tokens([m], ["", ""]));
    assert [um[0]] + "" == "_";
    assert Scan(Specifier, um) == Tokens([m], ["_", ""]);
    assert MatchLength(Specifier, f) == 2;
    ScanMatchStep(Specifier, f, Tokens([m], ["_", ""]));
  }

  lemma YearMonthTextTokens()
    ensures Scan(DigitRun, "2020_3") == Tokens(["2020", "3"], ["", "_", ""])
  {
    assert Interleave(["", "_", ""], ["2020", "3"]) == "2020_3";
    DigitRunsOfInterleaving(["2020", "3"], ["", "_", ""]);
  }

  lemma YearMonthNumbers()
    ensures DigitsToNat("2020") == 2020 && DigitsToNat("3") == 3
  {
    assert "2020"[..3] == "202" && "202"[..2] == "20" && "20"[..1] == "2";
  }

  /** The library's test case (test/testDatetime.h:164-167): `"2020_3"` read with `"%Y_%m"` is March 1,
      2020, 00:00:00, with the unnamed fields at their defaults. */
  lemma YearMonth()
    ensures Str2Time("2020_3", "%Y_%m") == Success(Tm(120, 2, 1, 0, 0, 0))
  {
    YearMonthFormatTokens();
    YearMonthTextTokens();
    YearMonthNumbers();
    YearMonthAligned("2020_3", "%Y_%m");
  }

  lemma YearMonthAligned(timestamp: string, format: string)
    requires Scan(Specifier, format) == Tokens(["%Y", "%m"], ["", "_", ""])
    requires Scan(DigitRun, timestamp) == Tokens(["2020", "3"], ["", "_", ""])
    requires DigitsToNat("2020") == 2020 && DigitsToNat("3") == 3
    ensures Str2Time(timestamp, format) == Success(Tm(120, 2, 1, 0, 0, 0))
  {
    var kv := ExtractTimeKeyValues(timestamp, format);
    assert kv.Success?;
    assert kv.value.values[0] == 2020 && kv.value.values[1] == 3;
    assert kv.value == KeyValues(["%Y", "%m"], [2020, 3], ["", "_", ""]);
    assert FirstRepeated(["%Y", "%m"]) == None;
  }
}
