/** Character classes and small string operations shared by the extractor and the selector. */
module Text {

  /** Python's `str.isspace()`: the code points whose bidirectional class is WS, B or S,
      or whose general category is Zs. */
  predicate IsSpace(c: char)
  {
    var n := c as int;
    n == 0x20 || 0x09 <= n <= 0x0D || 0x1C <= n <= 0x1F || n == 0x85 || n == 0xA0
    || n == 0x1680 || 0x2000 <= n <= 0x200A || n == 0x2028 || n == 0x2029
    || n == 0x202F || n == 0x205F || n == 0x3000
  }

  /** `\d`, restricted to ASCII digits. */
  predicate IsDigit(c: char)
  {
    '0' <= c <= '9'
  }

  /** The character class `[a-z0-9]`. */
  predicate IsLowerAlnum(c: char)
  {
    'a' <= c <= 'z' || IsDigit(c)
  }

  /** `\w`, restricted to ASCII: letters, digits and the underscore. */
  predicate IsWordChar(c: char)
  {
    IsLowerAlnum(c) || 'A' <= c <= 'Z' || c == '_'
  }

  predicate AllSpace(s: string)
  {
    forall m :: 0 <= m < |s| ==> IsSpace(s[m])
  }

  predicate AllDigits(t: string)
  {
    forall k :: 0 <= k < |t| ==> IsDigit(t[k])
  }

  /** The first position at or after `i` that does not hold whitespace. */
  function SkipSpaces(s: string, i: nat): (k: nat)
    requires i <= |s|
    ensures i <= k <= |s|
    ensures forall m :: i <= m < k ==> IsSpace(s[m])
    ensures k < |s| ==> !IsSpace(s[k])
    decreases |s| - i
  {
    if i < |s| && IsSpace(s[i]) then SkipSpaces(s, i + 1) else i
  }

  /** The end of `s[lo..j]` once its trailing whitespace is dropped. */
  function SkipSpacesBack(s: string, lo: nat, j: nat): (k: nat)
    requires lo <= j <= |s|
    ensures lo <= k <= j
    ensures forall m :: k <= m < j ==> IsSpace(s[m])
    ensures lo < k ==> !IsSpace(s[k - 1])
    decreases j
  {
    if lo < j && IsSpace(s[j - 1]) then SkipSpacesBack(s, lo, j - 1) else j
  }

  /** Python's `str.strip()` with no argument: the infix of `s` left once every leading and
      every trailing whitespace character is removed. */
  function Strip(s: string): (r: string)
    ensures exists a: nat :: a + |r| <= |s| && r == s[a..a + |r|]
                        && AllSpace(s[..a]) && AllSpace(s[a + |r|..])
    ensures r == [] <==> AllSpace(s)
    ensures r != [] ==> !IsSpace(r[0]) && !IsSpace(r[|r| - 1])
  {
    var a := SkipSpaces(s, 0);
    var b := SkipSpacesBack(s, a, |s|);
    StripMargins(s, a, b);
    StripEmpty(s, a, b);
    var r := s[a..b];
    assert a + |r| == b && r == s[a..a + |r|];
    assert AllSpace(s[..a]) && AllSpace(s[a + |r|..]);
    assert r != [] ==> r[0] == s[a] && r[|r| - 1] == s[b - 1];
    r
  }

  /** What the two skips step over is whitespace. */
  lemma StripMargins(s: string, a: nat, b: nat)
    requires a == SkipSpaces(s, 0) && b == SkipSpacesBack(s, a, |s|)
    ensures AllSpace(s[..a]) && AllSpace(s[b..])
  {
    assert forall m :: 0 <= m < a ==> s[..a][m] == s[m];
    assert forall m :: 0 <= m < |s| - b ==> s[b..][m] == s[b + m];
  }

  /** The skips meet exactly when the whole string is whitespace. */
  lemma StripEmpty(s: string, a: nat, b: nat)
    requires a == SkipSpaces(s, 0) && b == SkipSpacesBack(s, a, |s|)
    ensures a == b <==> AllSpace(s)
  {
    if a < |s| {
      assert !IsSpace(s[a]);
    }
  }

  /** Glues `parts` back together with `sep` between neighbours: the inverse of `Split`. */
  function Join(parts: seq<string>, sep: char): string
    requires |parts| >= 1
  {
    if |parts| == 1 then parts[0] else parts[0] + [sep] + Join(parts[1..], sep)
  }

  /** Python's `s.split(sep)` for a one-character separator: `k` separators give `k + 1`
      pieces, empty ones included. */
  function Split(s: string, sep: char): (parts: seq<string>)
    ensures |parts| >= 1
    ensures forall k :: 0 <= k < |parts| ==> sep !in parts[k]
    ensures Join(parts, sep) == s
  {
    if |s| == 0 then [""]
    else
      var rest := Split(s[1..], sep);
      if s[0] == sep then
        assert ([""] + rest)[1..] == rest;
        assert s == [] + [sep] + s[1..];
        [""] + rest
      else
        var parts := [[s[0]] + rest[0]] + rest[1..];
        assert parts[1..] == rest[1..];
        assert Join(parts, sep) == [s[0]] + Join(rest, sep) by {
          if |rest| > 1 {
            assert [s[0]] + rest[0] + [sep] + Join(rest[1..], sep)
                == [s[0]] + (rest[0] + [sep] + Join(rest[1..], sep));
          }
        }
        assert s == [s[0]] + s[1..];
        assert forall k :: 1 <= k < |parts| ==> parts[k] == rest[k];
        assert sep !in parts[0] by {
          assert parts[0] == [s[0]] + rest[0];
        }
        parts
  }

  /** Uniqueness: `Split` is the only way to cut `s` at every `sep`. */
  lemma {:induction false} SplitUnique(s: string, sep: char, parts: seq<string>)
    requires |parts| >= 1
    requires forall k :: 0 <= k < |parts| ==> sep !in parts[k]
    requires Join(parts, sep) == s
    ensures parts == Split(s, sep)
    decreases |s|
  {
    if |s| == 0 {
    } else if |parts[0]| == 0 {
      assert |parts| > 1;
      assert s == [sep] + Join(parts[1..], sep);
      assert s[1..] == Join(parts[1..], sep);
      SplitUnique(s[1..], sep, parts[1..]);
      assert parts == [""] + parts[1..];
    } else {
      var tail := [parts[0][1..]] + parts[1..];
      assert parts[0] == [parts[0][0]] + parts[0][1..];
      assert Join(parts, sep) == [parts[0][0]] + Join(tail, sep) by {
        assert tail[1..] == parts[1..];
        if |parts| > 1 {
          assert parts[0] + [sep] + Join(parts[1..], sep)
              == [parts[0][0]] + (parts[0][1..] + [sep] + Join(parts[1..], sep));
        }
      }
      assert s[0] == parts[0][0] && s[1..] == Join(tail, sep);
      assert forall k :: 0 <= k < |tail| ==> sep !in tail[k] by {
        forall k | 0 <= k < |tail| ensures sep !in tail[k] {
          if k == 0 {
            assert sep !in parts[0];
            assert forall c :: c in parts[0][1..] ==> c in parts[0];
          } else {
            assert tail[k] == parts[k];
          }
        }
      }
      SplitUnique(s[1..], sep, tail);
      assert s[0] != sep;
      assert tail[1..] == parts[1..];
    }
  }

  function Pow10(n: nat): (p: nat)
    ensures p >= 1
  {
    if n == 0 then 1 else 10 * Pow10(n - 1)
  }

  /** Python's `int(t)` on a run of decimal digits; leading zeros are allowed. */
  function DigitsValue(t: string): (v: nat)
    requires AllDigits(t)
    ensures v < Pow10(|t|)
  {
    if |t| == 0 then 0
    else
      assert AllDigits(t[..|t| - 1]);
      DigitsValue(t[..|t| - 1]) * 10 + (t[|t| - 1] as int - '0' as int)
  }

  /** Python's `float()` on the numeral `whole.frac`, as the exact decimal it denotes: the
      fraction adds less than one to the integer part. */
  function DecimalValue(whole: string, frac: string): (v: real)
    requires AllDigits(whole) && AllDigits(frac)
    ensures DigitsValue(whole) as real <= v < DigitsValue(whole) as real + 1.0
  {
    var f, scale := DigitsValue(frac), Pow10(|frac|);
    FractionBelowOne(f, scale);
    DigitsValue(whole) as real + f as real / scale as real
  }

  /** A single digit is worth its distance from `0`. */
  lemma OneDigit(c: char)
    requires IsDigit(c)
    ensures AllDigits([c]) && DigitsValue([c]) == c as int - '0' as int
  {
    assert [c][..0] == [];
  }

  /** Reading digits left to right: the value of `a + b` is `a`'s value shifted past `b`'s
      digits, plus `b`'s value. */
  lemma {:induction false} DigitsConcat(a: string, b: string)
    requires AllDigits(a) && AllDigits(b)
    ensures AllDigits(a + b)
    ensures DigitsValue(a + b) == DigitsValue(a) * Pow10(|b|) + DigitsValue(b)
    decreases |b|
  {
    var ab := a + b;
    assert AllDigits(ab) by {
      forall k | 0 <= k < |ab| ensures IsDigit(ab[k]) {
        if k < |a| { assert ab[k] == a[k]; } else { assert ab[k] == b[k - |a|]; }
      }
    }
    if |b| > 0 {
      var b' := b[..|b| - 1];
      assert AllDigits(b');
      assert ab[..|ab| - 1] == a + b';
      DigitsConcat(a, b');
      HornerStep(DigitsValue(a), Pow10(|b'|), DigitsValue(b'), b[|b| - 1] as int - '0' as int);
    } else {
      assert ab == a;
    }
  }

  /** One step of Horner's rule past a shifted prefix. */
  lemma HornerStep(x: int, p: int, y: int, c: int)
    ensures (x * p + y) * 10 + c == x * (10 * p) + (y * 10 + c)
  {
  }

  /** `float("whole.frac")` is the numeral with its dot removed, over ten to the number of
      fraction digits. */
  lemma DecimalIsShiftedDigits(whole: string, frac: string)
    requires AllDigits(whole) && AllDigits(frac)
    ensures AllDigits(whole + frac)
    ensures DecimalValue(whole, frac) == DigitsValue(whole + frac) as real / Pow10(|frac|) as real
  {
    DigitsConcat(whole, frac);
    ScaledSum(DigitsValue(whole), DigitsValue(frac), Pow10(|frac|));
  }

  /** Dividing a shifted sum by the shift. */
  lemma ScaledSum(w: nat, f: nat, p: nat)
    requires p >= 1
    ensures (w * p + f) as real / p as real == w as real + f as real / p as real
  {
  }

  lemma FractionBelowOne(a: nat, b: nat)
    requires a < b
    ensures 0.0 <= a as real / b as real < 1.0
  {
  }
}
