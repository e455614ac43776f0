/** The three regular expressions of the ratings extractor, written as explicit matchers.

    For every pattern there is a declarative `Shape` (which substrings the regex can match) and
    an engine (`MatchAt`) that returns the match Python's backtracking engine reports at a
    given start. For these three patterns the engine's choice is the longest shape at that
    start, and that is what `MatchAt` is proved to return. `Search` is `re.search` (the
    leftmost start) and `FindAll` is `re.finditer` (non-overlapping, left to right). */
module Patterns {
  import opened Wrappers
  import opened Text

  datatype Pattern =
    | SlugPattern    // [a-z0-9]+(?:-[a-z0-9]+)+
    | RatingPattern  // \d{3,4}\.\d+
    | IdPattern      // \b\d{1,5}\b

  /** `s[a..b]` holds digits only: `AllDigits` of that slice, stated on positions of `s` so that
      the matchers need no slices (see `DigitsInSlice`). */
  predicate DigitsIn(s: string, a: int, b: int)
  {
    0 <= a <= b <= |s| && forall k :: a <= k < b ==> IsDigit(s[k])
  }

  lemma DigitsInSlice(s: string, a: int, b: int)
    requires 0 <= a <= b <= |s|
    ensures DigitsIn(s, a, b) <==> AllDigits(s[a..b])
  {
    if AllDigits(s[a..b]) {
      forall k | a <= k < b ensures IsDigit(s[k]) {
        assert s[k] == s[a..b][k - a];
      }
    }
  }

  /** Position `p` holds a word character; positions outside `s` do not. */
  predicate IsWordAt(s: string, p: int)
  {
    0 <= p < |s| && IsWordChar(s[p])
  }

  /** The zero-width assertion `\b` holds at position `p`. */
  predicate WordBoundary(s: string, p: int)
  {
    IsWordAt(s, p - 1) != IsWordAt(s, p)
  }

  /** The regex `p` matches exactly `s[i..j]` (zero-width assertions read against all of `s`). */
  ghost predicate Shape(p: Pattern, s: string, i: int, j: int)
  {
    && 0 <= i < j <= |s|
    && match p
       case SlugPattern =>
         && IsLowerAlnum(s[i])
         && (forall k :: i <= k < j ==> IsLowerAlnum(s[k]) || s[k] == '-')
         && (forall k :: i <= k < j ==> DashThenAlnum(s, k, j))
         && (exists k :: i <= k < j && s[k] == '-')
       case RatingPattern =>
         || (DigitsIn(s, i, i + 3) && i + 4 < j && s[i + 3] == '.' && DigitsIn(s, i + 4, j))
         || (DigitsIn(s, i, i + 4) && i + 5 < j && s[i + 4] == '.' && DigitsIn(s, i + 5, j))
       case IdPattern =>
         && j - i <= 5
         && DigitsIn(s, i, j)
         && WordBoundary(s, i)
         && WordBoundary(s, j)
  }

  /** A `-` at position `k` is followed, before `j`, by a character of `[a-z0-9]`. */
  predicate DashThenAlnum(s: string, k: int, j: int)
    requires 0 <= k < |s|
  {
    s[k] == '-' ==> k + 1 < j && k + 1 < |s| && IsLowerAlnum(s[k + 1])
  }

  /** No match of `p` starts in `[a, b)`. */
  ghost predicate NoMatchIn(p: Pattern, s: string, a: int, b: int)
  {
    forall i, j :: a <= i < b ==> !Shape(p, s, i, j)
  }

  /** `s[i..e]` is the longest match of `p` starting at `i`. */
  ghost predicate Longest(p: Pattern, s: string, i: int, e: int)
  {
    Shape(p, s, i, e) && forall j :: Shape(p, s, i, j) ==> j <= e
  }

  /** `s[i..e]` is what `re.search` reports when it scans `s` from position `from`. */
  ghost predicate Leftmost(p: Pattern, s: string, from: int, i: int, e: int)
  {
    from <= i && Longest(p, s, i, e) && NoMatchIn(p, s, from, i)
  }

  ghost predicate HasMatch(p: Pattern, s: string)
  {
    !NoMatchIn(p, s, 0, |s|)
  }

  function AlnumRunEnd(s: string, k: nat): (e: nat)
    requires k <= |s|
    ensures k <= e <= |s|
    ensures forall m :: k <= m < e ==> IsLowerAlnum(s[m])
    ensures e < |s| ==> !IsLowerAlnum(s[e])
    decreases |s| - k
  {
    if k < |s| && IsLowerAlnum(s[k]) then AlnumRunEnd(s, k + 1) else k
  }

  function DigitRunEnd(s: string, k: nat): (e: nat)
    requires k <= |s|
    ensures k <= e <= |s|
    ensures DigitsIn(s, k, e)
    ensures e < |s| ==> !IsDigit(s[e])
    decreases |s| - k
  {
    if k < |s| && IsDigit(s[k]) then DigitRunEnd(s, k + 1) else k
  }

  /** The greedy loop `(?:-[a-z0-9]+)*` started right after a run of `[a-z0-9]`. */
  function ChainEnd(s: string, e: nat): (r: nat)
    requires e <= |s|
    requires e < |s| ==> !IsLowerAlnum(s[e])
    ensures e <= r <= |s|
    ensures forall m :: e <= m < r ==> IsLowerAlnum(s[m]) || s[m] == '-'
    ensures forall m :: e <= m < r ==> DashThenAlnum(s, m, r)
    ensures r < |s| ==> !IsLowerAlnum(s[r]) && !(s[r] == '-' && r + 1 < |s| && IsLowerAlnum(s[r + 1]))
    decreases |s| - e
  {
    if e + 1 < |s| && s[e] == '-' && IsLowerAlnum(s[e + 1]) then
      ChainEnd(s, AlnumRunEnd(s, e + 1))
    else
      e
  }

  /** The engine for `[a-z0-9]+(?:-[a-z0-9]+)+` at start `i`. */
  function SlugAt(s: string, i: nat): (r: Option<nat>)
    ensures r.Some? ==> Longest(SlugPattern, s, i, r.value)
    ensures r.None? ==> forall j :: !Shape(SlugPattern, s, i, j)
  {
    if i < |s| && IsLowerAlnum(s[i]) then
      var k := AlnumRunEnd(s, i);
      if k + 1 < |s| && s[k] == '-' && IsLowerAlnum(s[k + 1]) then
        var e := ChainEnd(s, k);
        assert Shape(SlugPattern, s, i, e) by {
          assert i <= k < e && s[k] == '-';
        }
        assert forall j :: Shape(SlugPattern, s, i, j) ==> j <= e by {
          forall j | Shape(SlugPattern, s, i, j) ensures j <= e {
            SlugShapeContinues(s, i, j, e);
          }
        }
        Some(e)
      else
        assert forall j :: !Shape(SlugPattern, s, i, j) by {
          forall j | Shape(SlugPattern, s, i, j) ensures false {
            SlugContinuesAfterFirstRun(s, i, j);
          }
        }
        None
    else
      None
  }

  /** A slug shape `s[i..j]` that reaches past position `e` goes on there with `[a-z0-9]`, or
      with `-` followed by `[a-z0-9]`. */
  lemma SlugShapeContinues(s: string, i: nat, j: int, e: nat)
    requires Shape(SlugPattern, s, i, j) && i <= e
    ensures e < j ==> IsLowerAlnum(s[e]) || (s[e] == '-' && e + 1 < |s| && IsLowerAlnum(s[e + 1]))
  {
    if e < j {
      assert DashThenAlnum(s, e, j);
    }
  }

  /** A slug match starting at `i` goes on, after the first run of `[a-z0-9]`, with a dash and
      another character of `[a-z0-9]`. */
  lemma SlugContinuesAfterFirstRun(s: string, i: nat, j: int)
    requires Shape(SlugPattern, s, i, j)
    ensures var k := AlnumRunEnd(s, i);
      k + 1 < |s| && s[k] == '-' && IsLowerAlnum(s[k + 1])
  {
    var k := AlnumRunEnd(s, i);
    var d :| i <= d < j && s[d] == '-';
    assert k <= d;
    assert DashThenAlnum(s, k, j) && (IsLowerAlnum(s[k]) || s[k] == '-');
  }

  /** The engine for `\d{3,4}\.\d+` at start `i`: four digits are tried first, then three. */
  function RatingAt(s: string, i: nat): (r: Option<nat>)
    ensures r.Some? ==> Longest(RatingPattern, s, i, r.value)
    ensures r.None? ==> forall j :: !Shape(RatingPattern, s, i, j)
  {
    if DigitsIn(s, i, i + 4) && i + 5 < |s| && s[i + 4] == '.' && IsDigit(s[i + 5]) then
      var e := DigitRunEnd(s, i + 5);
      Some(e)
    else if DigitsIn(s, i, i + 3) && i + 4 < |s| && s[i + 3] == '.' && IsDigit(s[i + 4]) then
      var e := DigitRunEnd(s, i + 4);
      Some(e)
    else
      None
  }

  /** The engine for `\b\d{1,5}\b` at start `i`. */
  function IdAt(s: string, i: nat): (r: Option<nat>)
    ensures r.Some? ==> Longest(IdPattern, s, i, r.value)
    ensures r.None? ==> forall j :: !Shape(IdPattern, s, i, j)
  {
    if i < |s| && IsDigit(s[i]) && !IsWordAt(s, i - 1) then
      var e := DigitRunEnd(s, i);
      if e - i <= 5 && !IsWordAt(s, e) then
        Some(e)
      else
        None
    else
      None
  }

  /** The match the engine reports for `p` when it tries start `i`. */
  function MatchAt(p: Pattern, s: string, i: nat): (r: Option<nat>)
    ensures r.Some? ==> Longest(p, s, i, r.value)
    ensures r.None? ==> forall j :: !Shape(p, s, i, j)
  {
    match p
    case SlugPattern => SlugAt(s, i)
    case RatingPattern => RatingAt(s, i)
    case IdPattern => IdAt(s, i)
  }

  /** `re.search` started at position `from`: the leftmost start with a match, and the match there. */
  function Search(p: Pattern, s: string, from: nat): (r: Option<(nat, nat)>)
    requires from <= |s|
    ensures r.Some? ==> Leftmost(p, s, from, r.value.0, r.value.1)
    ensures r.None? ==> NoMatchIn(p, s, from, |s|)
    decreases |s| - from
  {
    if from == |s| then None
    else
      match MatchAt(p, s, from)
      case Some(e) => Some((from, e))
      case None =>
        var r := Search(p, s, from + 1);
        assert forall j :: !Shape(p, s, from, j);
        r
  }

  /** The leftmost match is determined by the text: any longest match with no match before it
      is what `re.search` reports. */
  lemma SearchFinds(p: Pattern, s: string, from: nat, i: nat, e: nat)
    requires from <= |s| && Leftmost(p, s, from, i, e)
    ensures Search(p, s, from) == Some((i, e))
  {
    var r := Search(p, s, from);
    assert Shape(p, s, i, e);
    var (i', e') := r.value;
    assert Shape(p, s, i', e');
  }

  /** `ms` is the list of matches `re.finditer` reports when it scans `s` from `from`: each one
      is the leftmost match at or after the end of the one before, and after the last no match
      starts. */
  ghost predicate Scan(p: Pattern, s: string, from: int, ms: seq<(nat, nat)>)
    decreases |ms|
  {
    if |ms| == 0 then NoMatchIn(p, s, from, |s|)
    else Leftmost(p, s, from, ms[0].0, ms[0].1) && Scan(p, s, ms[0].1, ms[1..])
  }

  /** `re.finditer` started at position `from`. */
  function FindAll(p: Pattern, s: string, from: nat): (ms: seq<(nat, nat)>)
    requires from <= |s|
    ensures Scan(p, s, from, ms)
    ensures forall k :: 0 <= k < |ms| ==> from <= ms[k].0 < ms[k].1 <= |s|
    decreases |s| - from
  {
    match Search(p, s, from)
    case None => []
    case Some((i, e)) =>
      var rest := FindAll(p, s, e);
      var ms := [(i, e)] + rest;
      assert ms[1..] == rest;
      ms
  }

  /** Only one list of matches satisfies `Scan`: the scan is determined by the text. */
  lemma {:induction false} ScanUnique(p: Pattern, s: string, from: int, ms: seq<(nat, nat)>, ns: seq<(nat, nat)>)
    requires Scan(p, s, from, ms) && Scan(p, s, from, ns)
    ensures ms == ns
    decreases |ms|
  {
    if |ms| > 0 && |ns| > 0 {
      var (a, b) := ms[0];
      var (c, d) := ns[0];
      assert b <= d && d <= b;
      ScanUnique(p, s, b, ms[1..], ns[1..]);
      assert ms == [ms[0]] + ms[1..] && ns == [ns[0]] + ns[1..];
    }
  }

  /** The last match of a scan is a longest match, and no match starts at or after its end. */
  lemma {:induction false} ScanLast(p: Pattern, s: string, from: int, ms: seq<(nat, nat)>)
    requires Scan(p, s, from, ms) && |ms| > 0
    ensures Longest(p, s, ms[|ms| - 1].0, ms[|ms| - 1].1)
    ensures NoMatchIn(p, s, ms[|ms| - 1].1, |s|)
    decreases |ms|
  {
    if |ms| > 1 {
      ScanLast(p, s, ms[0].1, ms[1..]);
      assert ms[1..][|ms[1..]| - 1] == ms[|ms| - 1];
    }
  }

  /** Any list of matches that satisfies the scan ends in what `LastMatch` reports. */
  lemma LastMatchOfScan(p: Pattern, s: string, ms: seq<(nat, nat)>)
    requires Scan(p, s, 0, ms) && |ms| > 0
    ensures LastMatch(p, s) == Some(ms[|ms| - 1])
  {
    ScanUnique(p, s, 0, FindAll(p, s, 0), ms);
  }

  /** The only match in a string is the last one. */
  lemma LoneMatchIsLast(p: Pattern, s: string, i: nat, e: nat)
    requires Leftmost(p, s, 0, i, e) && NoMatchIn(p, s, e, |s|)
    ensures LastMatch(p, s) == Some((i, e))
  {
    var ms := [(i, e)];
    assert Scan(p, s, 0, ms) by {
      assert ms[1..] == [];
    }
    LastMatchOfScan(p, s, ms);
  }

  /** `s[i..e]` is the last match `re.finditer` reports on `s`. */
  ghost predicate LastScanned(p: Pattern, s: string, i: int, e: int)
  {
    exists ms :: Scan(p, s, 0, ms) && |ms| > 0 && ms[|ms| - 1] == (i, e)
  }

  /** The last match of the left-to-right scan `re.finditer` makes over `s`. */
  function LastMatch(p: Pattern, s: string): (r: Option<(nat, nat)>)
    ensures r.None? <==> !HasMatch(p, s)
    ensures r.Some? ==> LastScanned(p, s, r.value.0, r.value.1)
    ensures r.Some? ==> Longest(p, s, r.value.0, r.value.1) && NoMatchIn(p, s, r.value.1, |s|)
  {
    var ms := FindAll(p, s, 0);
    if |ms| == 0 then None
    else
      ScanLast(p, s, 0, ms);
      assert HasMatch(p, s) by {
        assert Shape(p, s, ms[0].0, ms[0].1);
      }
      Some(ms[|ms| - 1])
  }

  /** `float()` of a `\d{3,4}\.\d+` match, as the exact decimal its digits denote. */
  function RatingValue(s: string, i: nat, e: nat): (v: real)
    requires Shape(RatingPattern, s, i, e)
    ensures 0.0 <= v < 10000.0
  {
    var d := RatingDot(s, i, e);
    assert Pow10(d - i) <= 10000 by {
      assert Pow10(3) == 1000;
      assert Pow10(4) == 10000;
    }
    DecimalValue(s[i..d], s[d + 1..e])
  }

  /** The rating is the matched numeral with its dot removed, over ten to the number of digits
      after the dot. */
  lemma RatingIsShiftedDigits(s: string, i: nat, e: nat)
    requires Shape(RatingPattern, s, i, e)
    ensures var d := RatingDot(s, i, e);
      && AllDigits(s[i..d] + s[d + 1..e])
      && RatingValue(s, i, e) == DigitsValue(s[i..d] + s[d + 1..e]) as real / Pow10(e - d - 1) as real
  {
    var d := RatingDot(s, i, e);
    DecimalIsShiftedDigits(s[i..d], s[d + 1..e]);
  }

  /** The position of the `.` in a rating match, with digits on both sides of it. */
  function RatingDot(s: string, i: nat, e: nat): (d: nat)
    requires Shape(RatingPattern, s, i, e)
    ensures i + 3 <= d <= i + 4 && d + 1 < e <= |s| && s[d] == '.'
    ensures AllDigits(s[i..d]) && AllDigits(s[d + 1..e])
  {
    var d := if s[i + 3] == '.' then i + 3 else i + 4;
    d
  }

  /** `int()` of a `\b\d{1,5}\b` match. */
  function IdValue(s: string, i: nat, e: nat): (v: nat)
    requires Shape(IdPattern, s, i, e)
    ensures v < 100000
  {
    assert AllDigits(s[i..e]);
    assert Pow10(e - i) <= 100000 by {
      assert Pow10(5) == 100000;
      if e - i < 5 { Pow10Grows(e - i, 5); }
    }
    DigitsValue(s[i..e])
  }

  lemma {:induction false} Pow10Grows(m: nat, n: nat)
    requires m <= n
    ensures Pow10(m) <= Pow10(n)
    decreases n
  {
    if m < n { Pow10Grows(m, n - 1); }
  }
}
