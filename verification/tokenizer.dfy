/** `getMatchedLists` (include/datetime_parser.h): split a text into the
    successive matches of a regular expression and the literal text around
    them. Both expressions used by the library are modelled:
    `%[a-zA-Z]` for format specifiers and `\d+` for numbers. */
module Tokenizer {
  import opened DatetimeErrors
  import opened Decimal

  datatype Pattern =
    | Specifier   // %[a-zA-Z]
    | DigitRun    // \d+

  predicate IsAsciiLetter(c: char) {
    'a' <= c <= 'z' || 'A' <= c <= 'Z'
  }

  /** Length of the longest run of digits at the start of `s`. */
  function DigitRunLength(s: string): (n: nat)
    ensures n <= |s|
    ensures forall i :: 0 <= i < n ==> IsDigit(s[i])
    ensures n < |s| ==> !IsDigit(s[n])
    decreases |s|
  {
    if |s| > 0 && IsDigit(s[0]) then 1 + DigitRunLength(s[1..]) else 0
  }

  /** Length of the match of `p` that begins at the first character of `s`
      (the regex engine is greedy, so a digit run is taken whole), or 0. */
  function MatchLength(p: Pattern, s: string): (n: nat)
    ensures n <= |s|
  {
    match p
    case Specifier => if 2 <= |s| && s[0] == '%' && IsAsciiLetter(s[1]) then 2 else 0
    case DigitRun => DigitRunLength(s)
  }

  /** `m` is one whole match of `p`. */
  predicate IsToken(p: Pattern, m: string) {
    match p
    case Specifier => |m| == 2 && m[0] == '%' && IsAsciiLetter(m[1])
    case DigitRun => |m| > 0 && AllDigits(m)
  }

  /** The matches in order, and the literal text before, between and after them. */
  datatype Tokens = Tokens(matches: seq<string>, delims: seq<string>)

  /** `d[0] + m[0] + d[1] + ... + m[n-1] + d[n]`. */
  function Interleave(delims: seq<string>, matches: seq<string>): string
    requires |delims| == |matches| + 1
    decreases |matches|
  {
    if |matches| == 0 then delims[0]
    else delims[0] + matches[0] + Interleave(delims[1..], matches[1..])
  }

  /** The scan of `std::sregex_iterator`: at each position either a match starts
      (it is taken and the scan resumes after it) or the character joins the
      current literal run. There is always one more literal run than matches,
      and gluing them back together gives the input. */
  function Scan(p: Pattern, s: string): (t: Tokens)
    ensures |t.delims| == |t.matches| + 1
    ensures Interleave(t.delims, t.matches) == s
    ensures forall i :: 0 <= i < |t.matches| ==> IsToken(p, t.matches[i])
    decreases |s|
  {
    if |s| == 0 then
      Tokens([], [""])
    else
      var n := MatchLength(p, s);
      if n > 0 then
        var rest := Scan(p, s[n..]);
        MatchIsToken(p, s);
        InterleaveCons("", s[..n], rest.delims, rest.matches);
        assert s == "" + s[..n] + s[n..];
        Tokens([s[..n]] + rest.matches, [""] + rest.delims)
      else
        var rest := Scan(p, s[1..]);
        InterleavePrepend([s[0]], rest.delims, rest.matches);
        assert s == [s[0]] + s[1..];
        Tokens(rest.matches, [[s[0]] + rest.delims[0]] + rest.delims[1..])
  }

  lemma MatchIsToken(p: Pattern, s: string)
    requires MatchLength(p, s) > 0
    ensures IsToken(p, s[..MatchLength(p, s)])
  {
  }

  lemma InterleaveCons(d: string, m: string, delims: seq<string>, matches: seq<string>)
    requires |delims| == |matches| + 1
    ensures Interleave([d] + delims, [m] + matches) == d + m + Interleave(delims, matches)
  {
    assert ([d] + delims)[1..] == delims && ([m] + matches)[1..] == matches;
  }

  lemma InterleavePrepend(c: string, delims: seq<string>, matches: seq<string>)
    requires |delims| == |matches| + 1
    ensures Interleave([c + delims[0]] + delims[1..], matches) == c + Interleave(delims, matches)
  {
    var d' := [c + delims[0]] + delims[1..];
    if |matches| > 0 {
      assert d'[1..] == delims[1..];
    }
  }

  /** `getMatchedLists`: the scan, failing when the text holds no match at all
      (a format without a specifier, a timestamp without a digit). */
  function GetMatchedLists(p: Pattern, s: string): (r: Result<Tokens>)
    ensures r.Failure? <==> NoMatchBefore(p, s, |s|)
    ensures r.Failure? ==> r.error == NoSpecifier
    ensures r.Success? ==> r.value == Scan(p, s) && |r.value.matches| > 0
  {
    var t := Scan(p, s);
    NoMatchesIffNoMatchAnywhere(p, s);
    if |t.matches| == 0 then Failure(NoSpecifier) else Success(t)
  }

  // ---------------------------------------------------------------------------
  // An independent description of the scan: leftmost, non-overlapping matches.

  /** No match of `p` begins at any of the first `k` positions of `s`. */
  ghost predicate NoMatchBefore(p: Pattern, s: string, k: nat)
    requires k <= |s|
  {
    forall q {:trigger MatchLength(p, s[q..])} :: 0 <= q < k ==> MatchLength(p, s[q..]) == 0
  }

  /** `s` begins with the literal run `d`, and no match begins inside it. */
  ghost predicate LiteralPrefix(p: Pattern, s: string, d: string) {
    |d| <= |s| && s[..|d|] == d && NoMatchBefore(p, s, |d|)
  }

  /** The match found at position `k` of `s` is exactly `m`. */
  ghost predicate MatchAt(p: Pattern, s: string, k: nat, m: string) {
    k <= |s| && |m| > 0 && MatchLength(p, s[k..]) == |m| && s[k..k + |m|] == m
  }

  /** `delims`/`matches` split `s` the way a left-to-right regex search does:
      the first literal run contains no position where a match begins, the first
      match is exactly the match found right after it, and the rest of the text
      splits the same way. */
  ghost predicate IsLeftmostSplit(p: Pattern, s: string, matches: seq<string>, delims: seq<string>)
    decreases |matches|
  {
    && |delims| == |matches| + 1
    && LiteralPrefix(p, s, delims[0])
    && if |matches| == 0 then
         delims[0] == s
       else
         && MatchAt(p, s, |delims[0]|, matches[0])
         && IsLeftmostSplit(p, s[|delims[0]| + |matches[0]|..], matches[1..], delims[1..])
  }

  /** A literal run can be extended or shortened by its first character. */
  lemma LiteralPrefixCons(p: Pattern, s: string, d: string)
    requires |s| > 0
    ensures LiteralPrefix(p, s, [s[0]] + d) <==> MatchLength(p, s) == 0 && LiteralPrefix(p, s[1..], d)
  {
    var d' := [s[0]] + d;
    if |d'| <= |s| {
      assert s[..|d'|] == [s[0]] + s[1..][..|d|];
      assert s[..|d'|] == d' <==> s[1..][..|d|] == d by {
        if s[..|d'|] == d' {
          assert s[1..][..|d|] == s[..|d'|][1..] == d'[1..] == d;
        }
      }
      assert s[0..] == s;
      forall q | 0 < q <= |d|
        ensures s[q..] == s[1..][q - 1..]
      {
      }
      if MatchLength(p, s) == 0 && NoMatchBefore(p, s[1..], |d|) {
        forall q | 0 <= q < |d'|
          ensures MatchLength(p, s[q..]) == 0
        {
          if q > 0 {
            assert MatchLength(p, s[1..][q - 1..]) == 0;
          }
        }
      }
      if NoMatchBefore(p, s, |d'|) {
        assert MatchLength(p, s[0..]) == 0;
        forall q | 0 <= q < |d|
          ensures MatchLength(p, s[1..][q..]) == 0
        {
          assert MatchLength(p, s[q + 1..]) == 0;
        }
      }
    }
  }

  lemma MatchAtShift(p: Pattern, s: string, k: nat, m: string)
    requires 0 < k <= |s|
    ensures MatchAt(p, s, k, m) <==> MatchAt(p, s[1..], k - 1, m)
    ensures MatchAt(p, s, k, m) ==> s[k + |m|..] == s[1..][k - 1 + |m|..]
  {
    assert s[k..] == s[1..][k - 1..];
  }

  lemma {:induction false} ScanIsLeftmost(p: Pattern, s: string)
    ensures IsLeftmostSplit(p, s, Scan(p, s).matches, Scan(p, s).delims)
    decreases |s|
  {
    if |s| > 0 {
      var n := MatchLength(p, s);
      if n > 0 {
        var rest := Scan(p, s[n..]);
        ScanIsLeftmost(p, s[n..]);
        ScanMatchStep(p, s, rest);
        LeftmostMatchFirst(p, s, rest.matches, rest.delims);
      } else {
        var rest := Scan(p, s[1..]);
        ScanIsLeftmost(p, s[1..]);
        ScanLiteralStep(p, s, rest);
        LeftmostAddFirst(p, s, rest.matches, rest.delims);
      }
    }
  }

  /** A match at the very start, followed by a leftmost split of the rest. */
  lemma LeftmostMatchFirst(p: Pattern, s: string, matches: seq<string>, delims: seq<string>)
    requires MatchLength(p, s) > 0 && |delims| == |matches| + 1
    requires IsLeftmostSplit(p, s[MatchLength(p, s)..], matches, delims)
    ensures IsLeftmostSplit(p, s, [s[..MatchLength(p, s)]] + matches, [""] + delims)
  {
    var n := MatchLength(p, s);
    assert s[0..] == s && s[..0] == "";
    assert MatchAt(p, s, 0, s[..n]);
    LeftmostSplitCons(p, s, "", s[..n], matches, delims, s[n..]);
  }

  /** A character where no match starts, put in front of a leftmost split,
      joins its first literal run. */
  lemma LeftmostAddFirst(p: Pattern, s: string, matches: seq<string>, delims: seq<string>)
    requires |s| > 0 && MatchLength(p, s) == 0
    requires IsLeftmostSplit(p, s[1..], matches, delims)
    ensures IsLeftmostSplit(p, s, matches, [[s[0]] + delims[0]] + delims[1..])
  {
    if |matches| > 0 {
      assert matches == [matches[0]] + matches[1..];
      AddFirstBeforeMatch(p, s, delims[0], matches[0], matches[1..], delims[1..]);
    } else {
      LiteralPrefixCons(p, s, delims[0]);
      assert s == [s[0]] + s[1..];
    }
  }

  /** A literal run and the match after it, moved one character right. */
  lemma HeadShift(p: Pattern, s: string, d: string, m: string)
    requires |s| > 0 && MatchLength(p, s) == 0
    requires LiteralPrefix(p, s[1..], d) && MatchAt(p, s[1..], |d|, m)
    ensures LiteralPrefix(p, s, [s[0]] + d)
    ensures MatchAt(p, s, |[s[0]] + d|, m)
    ensures s[|[s[0]] + d| + |m|..] == s[1..][|d| + |m|..]
  {
    LiteralPrefixCons(p, s, d);
    MatchAtShift(p, s, |d| + 1, m);
  }

  /** The match case of `LeftmostAddFirst`, stated on the head and the rest. */
  lemma AddFirstBeforeMatch(p: Pattern, s: string, d: string, m: string, ms: seq<string>, ds: seq<string>)
    requires |s| > 0 && MatchLength(p, s) == 0 && |ds| == |ms| + 1
    requires LiteralPrefix(p, s[1..], d)
    requires MatchAt(p, s[1..], |d|, m)
    requires IsLeftmostSplit(p, s[1..][|d| + |m|..], ms, ds)
    ensures IsLeftmostSplit(p, s, [m] + ms, [[s[0]] + d] + ds)
  {
    HeadShift(p, s, d, m);
    LeftmostSplitCons(p, s, [s[0]] + d, m, ms, ds, s[1..][|d| + |m|..]);
  }

  lemma {:induction false} LeftmostIsScan(p: Pattern, s: string, matches: seq<string>, delims: seq<string>)
    requires IsLeftmostSplit(p, s, matches, delims)
    ensures Scan(p, s) == Tokens(matches, delims)
    decreases |s|, 1
  {
    if |delims[0]| > 0 {
      LeftmostIsScanLiteral(p, s, matches, delims);
    } else if |matches| > 0 {
      LeftmostIsScanMatch(p, s, matches, delims);
    }
  }

  lemma {:induction false} LeftmostIsScanLiteral(p: Pattern, s: string, matches: seq<string>, delims: seq<string>)
    requires IsLeftmostSplit(p, s, matches, delims)
    requires |delims[0]| > 0
    ensures Scan(p, s) == Tokens(matches, delims)
    decreases |s|, 0
  {
    var delims' := [delims[0][1..]] + delims[1..];
    LeftmostDropFirst(p, s, matches, delims);
    LeftmostIsScan(p, s[1..], matches, delims');
    ScanLiteralStep(p, s, Tokens(matches, delims'));
    SplitFirstCharacter(delims);
  }

  lemma SplitFirstCharacter(delims: seq<string>)
    requires |delims| > 0 && |delims[0]| > 0
    ensures [[delims[0][0]] + ([delims[0][1..]] + delims[1..])[0]] + ([delims[0][1..]] + delims[1..])[1..] == delims
  {
    var delims' := [delims[0][1..]] + delims[1..];
    assert delims'[1..] == delims[1..];
    assert [delims[0][0]] + delims'[0] == delims[0];
  }

  lemma {:induction false} LeftmostIsScanMatch(p: Pattern, s: string, matches: seq<string>, delims: seq<string>)
    requires IsLeftmostSplit(p, s, matches, delims)
    requires |delims[0]| == 0 && |matches| > 0
    ensures Scan(p, s) == Tokens(matches, delims)
    decreases |s|, 0
  {
    var n := |matches[0]|;
    assert MatchAt(p, s, 0, matches[0]);
    assert s[0..] == s;
    LeftmostIsScan(p, s[n..], matches[1..], delims[1..]);
    ScanMatchStep(p, s, Tokens(matches[1..], delims[1..]));
    assert [s[..n]] + matches[1..] == matches;
    assert [""] + delims[1..] == delims;
  }

  /** One unfolding of `Scan` where a match starts at the first character. */
  lemma ScanMatchStep(p: Pattern, s: string, rest: Tokens)
    requires MatchLength(p, s) > 0
    requires Scan(p, s[MatchLength(p, s)..]) == rest
    ensures Scan(p, s) == Tokens([s[..MatchLength(p, s)]] + rest.matches, [""] + rest.delims)
  {
  }

  /** Dropping the first character of a non-empty first literal run keeps a
      leftmost split. */
  lemma LeftmostDropFirst(p: Pattern, s: string, matches: seq<string>, delims: seq<string>)
    requires IsLeftmostSplit(p, s, matches, delims)
    requires |delims[0]| > 0
    ensures |s| > 0 && MatchLength(p, s) == 0 && delims[0][0] == s[0]
    ensures IsLeftmostSplit(p, s[1..], matches, [delims[0][1..]] + delims[1..])
  {
    LiteralPrefixDropFirst(p, s, delims[0]);
    if |matches| > 0 {
      assert matches == [matches[0]] + matches[1..];
      DropFirstBeforeMatch(p, s, delims[0], matches[0], matches[1..], delims[1..]);
    } else {
      assert delims[0] == s;
    }
  }

  /** The match case of `LeftmostDropFirst`, stated on the head and the rest. */
  lemma DropFirstBeforeMatch(p: Pattern, s: string, d: string, m: string, ms: seq<string>, ds: seq<string>)
    requires |ds| == |ms| + 1
    requires LiteralPrefix(p, s, d) && |d| > 0
    requires MatchAt(p, s, |d|, m)
    requires IsLeftmostSplit(p, s[|d| + |m|..], ms, ds)
    ensures IsLeftmostSplit(p, s[1..], [m] + ms, [d[1..]] + ds)
  {
    LiteralPrefixDropFirst(p, s, d);
    MatchAtShift(p, s, |d|, m);
    LeftmostSplitCons(p, s[1..], d[1..], m, ms, ds, s[|d| + |m|..]);
  }

  /** A leftmost split with at least one match, assembled from its head:
      a literal run, the match right after it, and a leftmost split of the
      text after the match. */
  lemma LeftmostSplitCons(p: Pattern, s: string, d: string, m: string, ms: seq<string>, ds: seq<string>, rest: string)
    requires |ds| == |ms| + 1
    requires LiteralPrefix(p, s, d) && MatchAt(p, s, |d|, m)
    requires rest == s[|d| + |m|..] && IsLeftmostSplit(p, rest, ms, ds)
    ensures IsLeftmostSplit(p, s, [m] + ms, [d] + ds)
  {
    assert ([m] + ms)[1..] == ms && ([d] + ds)[1..] == ds;
  }

  /** A non-empty literal run at the head of `s` starts with `s[0]`, no match
      starts there, and the rest of the run is a literal run of `s[1..]`. */
  lemma LiteralPrefixDropFirst(p: Pattern, s: string, d: string)
    requires LiteralPrefix(p, s, d) && |d| > 0
    ensures |s| > 0 && MatchLength(p, s) == 0 && d[0] == s[0]
    ensures LiteralPrefix(p, s[1..], d[1..])
  {
    assert s[..|d|][0] == s[0];
    assert s[0..] == s;
    assert d == [s[0]] + d[1..];
    LiteralPrefixCons(p, s, d[1..]);
  }

  /** One unfolding of `Scan` where no match starts at the first character. */
  lemma ScanLiteralStep(p: Pattern, s: string, rest: Tokens)
    requires |s| > 0 && MatchLength(p, s) == 0
    requires Scan(p, s[1..]) == rest
    ensures Scan(p, s) == Tokens(rest.matches, [[s[0]] + rest.delims[0]] + rest.delims[1..])
  {
  }

  /** The scan is exactly the leftmost split: it is one, and it is the only one. */
  lemma ScanIffLeftmost(p: Pattern, s: string, matches: seq<string>, delims: seq<string>)
    ensures Scan(p, s) == Tokens(matches, delims) <==> IsLeftmostSplit(p, s, matches, delims)
  {
    ScanIsLeftmost(p, s);
    if IsLeftmostSplit(p, s, matches, delims) {
      LeftmostIsScan(p, s, matches, delims);
    }
  }

  /** The scan finds nothing exactly when no position of the text starts a match. */
  lemma NoMatchesIffNoMatchAnywhere(p: Pattern, s: string)
    ensures |Scan(p, s).matches| == 0 <==> NoMatchBefore(p, s, |s|)
  {
    ScanIsLeftmost(p, s);
    if NoMatchBefore(p, s, |s|) {
      assert s[..|s|] == s;
      assert IsLeftmostSplit(p, s, [], [s]);
      LeftmostIsScan(p, s, [], [s]);
    }
  }

  /** For numbers, "no match anywhere" means "no digit at all". */
  lemma NoDigitRunIffNoDigits(s: string)
    ensures NoMatchBefore(DigitRun, s, |s|) <==> NoDigits(s)
  {
    if NoMatchBefore(DigitRun, s, |s|) {
      forall i | 0 <= i < |s|
        ensures !IsDigit(s[i])
      {
        assert MatchLength(DigitRun, s[i..]) == 0;
        assert s[i..][0] == s[i];
      }
    }
    if NoDigits(s) {
      forall q | 0 <= q < |s|
        ensures MatchLength(DigitRun, s[q..]) == 0
      {
        assert s[q..][0] == s[q];
      }
    }
  }

  // ---------------------------------------------------------------------------
  // Scanning a text built from numbers and digit-free literal runs.

  /** When literal runs hold no digit and the runs between two numbers are not
      empty, the digit runs of the interleaving are exactly those numbers and
      the literal runs come back unchanged. */
  lemma DigitRunsOfInterleaving(numbers: seq<string>, delims: seq<string>)
    requires |delims| == |numbers| + 1
    requires forall i :: 0 <= i < |numbers| ==> IsToken(DigitRun, numbers[i])
    requires forall i :: 0 <= i < |delims| ==> NoDigits(delims[i])
    requires forall i :: 0 < i < |numbers| ==> delims[i] != ""
    ensures Scan(DigitRun, Interleave(delims, numbers)) == Tokens(numbers, delims)
  {
    InterleavingIsLeftmost(numbers, delims);
    LeftmostIsScan(DigitRun, Interleave(delims, numbers), numbers, delims);
  }

  lemma {:induction false} InterleavingIsLeftmost(numbers: seq<string>, delims: seq<string>)
    requires |delims| == |numbers| + 1
    requires forall i :: 0 <= i < |numbers| ==> IsToken(DigitRun, numbers[i])
    requires forall i :: 0 <= i < |delims| ==> NoDigits(delims[i])
    requires forall i :: 0 < i < |numbers| ==> delims[i] != ""
    ensures IsLeftmostSplit(DigitRun, Interleave(delims, numbers), numbers, delims)
    decreases |numbers|
  {
    var s := Interleave(delims, numbers);
    if |numbers| == 0 {
      NoDigitsLiteral(delims[0], "");
      assert delims[0] + "" == s;
    } else {
      var tail := Interleave(delims[1..], numbers[1..]);
      assert s == delims[0] + (numbers[0] + tail);
      NoDigitsLiteral(delims[0], numbers[0] + tail);
      var k := |delims[0]|;
      assert s[k..] == numbers[0] + tail;
      assert |tail| == 0 || !IsDigit(tail[0]) by {
        if |numbers| > 1 {
          assert delims[1] != "" && tail[0] == delims[1][0];
        } else if |tail| > 0 {
          assert tail == delims[1];
        }
      }
      DigitsThenNonDigit(numbers[0], tail);
      var n := |numbers[0]|;
      assert s[k..k + n] == numbers[0];
      assert s[k + n..] == tail;
      InterleavingIsLeftmost(numbers[1..], delims[1..]);
    }
  }

  lemma NoDigitsLiteral(d: string, u: string)
    requires NoDigits(d)
    ensures LiteralPrefix(DigitRun, d + u, d)
  {
    var s := d + u;
    assert s[..|d|] == d;
    forall q | 0 <= q < |d|
      ensures MatchLength(DigitRun, s[q..]) == 0
    {
      assert s[q..][0] == d[q];
    }
  }

  lemma {:induction false} DigitsThenNonDigit(r: string, u: string)
    requires AllDigits(r)
    requires |u| == 0 || !IsDigit(u[0])
    ensures DigitRunLength(r + u) == |r|
    decreases |r|
  {
    if |r| > 0 {
      assert (r + u)[1..] == r[1..] + u;
      DigitsThenNonDigit(r[1..], u);
    } else {
      assert r + u == u;
    }
  }
}
