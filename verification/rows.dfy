/** The layout of a regular row of the ratings table, and the record the extractor reads from
    it: whatever the particular id, slug and rating, a row `<id> <slug> <whole>.<frac><rest>`
    yields exactly those three fields. */
module Rows {
  import opened Wrappers
  import opened Text
  import opened Patterns
  import opened Ratings

  /** A row `<id> <slug> <whole>.<frac><rest>`. */
  function Row(id: string, slug: string, whole: string, frac: string, rest: string): (s: string)
    ensures |s| == |id| + |slug| + |whole| + |frac| + |rest| + 3
  {
    id + " " + slug + " " + whole + "." + frac + rest
  }

  /** The fields a row is read back from exactly: an id of one to five digits, a slug, a rating
      with three or four integer digits and a non-empty fraction, and a remainder that does not
      continue the fraction, holds no `.` and does not end in whitespace. */
  ghost predicate WellFormed(id: string, slug: string, whole: string, frac: string, rest: string)
  {
    && 1 <= |id| <= 5 && AllDigits(id)
    && IsSlug(slug)
    && 3 <= |whole| <= 4 && AllDigits(whole)
    && 1 <= |frac| && AllDigits(frac)
    && '.' !in rest
    && (rest != [] ==> !IsDigit(rest[0]) && !IsSpace(rest[|rest| - 1]))
  }

  /** A well-formed row parses to its slug, the exact value of its rating and its id. */
  lemma ParseRow(id: string, slug: string, whole: string, frac: string, rest: string)
    requires WellFormed(id, slug, whole, frac, rest)
    ensures ParseLine(Row(id, slug, whole, frac, rest))
         == Some(Record(slug, DecimalValue(whole, frac), Some(DigitsValue(id))))
  {
    RowStrip(id, slug, whole, frac, rest);
    RowSlugFound(id, slug, whole, frac, rest);
    RowRatingFound(id, slug, whole, frac, rest);
    RowIdFound(id, slug, whole, frac, rest);
    ParseLineFrom(Row(id, slug, whole, frac, rest), slug, DecimalValue(whole, frac), DigitsValue(id));
  }

  /** A line laid out as a well-formed row parses to the record its fields spell. */
  lemma ParseRowAs(line: string, id: string, slug: string, whole: string, frac: string, rest: string, r: Record)
    requires line == Row(id, slug, whole, frac, rest) && WellFormed(id, slug, whole, frac, rest)
    requires r == Record(slug, DecimalValue(whole, frac), Some(DigitsValue(id)))
    ensures ParseLine(line) == Some(r)
  {
    ParseRow(id, slug, whole, frac, rest);
  }

  /** The slug search on a row finds the slug field. */
  lemma RowSlugFound(id: string, slug: string, whole: string, frac: string, rest: string)
    requires WellFormed(id, slug, whole, frac, rest)
    ensures var s := Row(id, slug, whole, frac, rest);
      var m := Search(SlugPattern, s, 0);
      m.Some? && s[m.value.0..m.value.1] == slug
  {
    RowSlug(id, slug, whole, frac, rest);
    RowSlugField(id, slug, whole, frac, rest);
  }

  /** The last rating on a row is the rating field, worth the decimal it spells. */
  lemma RowRatingFound(id: string, slug: string, whole: string, frac: string, rest: string)
    requires WellFormed(id, slug, whole, frac, rest)
    ensures var s := Row(id, slug, whole, frac, rest);
      var m := LastMatch(RatingPattern, s);
      m.Some? && RatingValue(s, m.value.0, m.value.1) == DecimalValue(whole, frac)
  {
    RowRating(id, slug, whole, frac, rest);
    RatingFieldValue(id, slug, whole, frac, rest);
    RatingFound(Row(id, slug, whole, frac, rest), id, slug, whole, frac);
  }

  /** The value of the last rating match on a line, once its place is known. */
  lemma RatingFound(s: string, id: string, slug: string, whole: string, frac: string)
    requires AllDigits(whole) && AllDigits(frac)
    requires var p := |id| + |slug| + 2;
      LastMatch(RatingPattern, s) == Some((p, p + |whole| + 1 + |frac|))
    requires var p := |id| + |slug| + 2;
      && Shape(RatingPattern, s, p, p + |whole| + 1 + |frac|)
      && RatingValue(s, p, p + |whole| + 1 + |frac|) == DecimalValue(whole, frac)
    ensures var m := LastMatch(RatingPattern, s);
      m.Some? && RatingValue(s, m.value.0, m.value.1) == DecimalValue(whole, frac)
  {
  }

  /** The id search on a row finds the id field, worth the number it spells. */
  lemma RowIdFound(id: string, slug: string, whole: string, frac: string, rest: string)
    requires WellFormed(id, slug, whole, frac, rest)
    ensures var s := Row(id, slug, whole, frac, rest);
      var m := Search(IdPattern, s, 0);
      m.Some? && IdValue(s, m.value.0, m.value.1) == DigitsValue(id)
  {
    RowId(id, slug, whole, frac, rest);
  }

  /** Where each field of a row sits. */
  lemma RowSlices(id: string, slug: string, whole: string, frac: string, rest: string)
    ensures var s, a := Row(id, slug, whole, frac, rest), |id|;
      var b := a + 1 + |slug|;
      var d := b + 1 + |whole|;
      var q := d + 1 + |frac|;
      && s[..a] == id && s[a] == ' ' && s[a + 1..b] == slug && s[b] == ' '
      && s[b + 1..d] == whole && s[d] == '.' && s[d + 1..q] == frac && s[q..] == rest
  {
    var s := Row(id, slug, whole, frac, rest);
    assert s == id + [' '] + slug + [' '] + whole + ['.'] + frac + rest;
  }

  /** The slug field of a row holds the slug. */
  lemma RowSlugField(id: string, slug: string, whole: string, frac: string, rest: string)
    ensures Row(id, slug, whole, frac, rest)[|id| + 1..|id| + 1 + |slug|] == slug
  {
    RowSlices(id, slug, whole, frac, rest);
  }

  /** What kind of character each position of a row holds: digits in the numeric fields,
      blanks between the fields, and no `.` except the rating's. */
  lemma RowLayout(id: string, slug: string, whole: string, frac: string, rest: string)
    requires WellFormed(id, slug, whole, frac, rest)
    ensures var s, a := Row(id, slug, whole, frac, rest), |id|;
      var b := a + 1 + |slug|;
      var d := b + 1 + |whole|;
      var q := d + 1 + |frac|;
      && s[a] == ' ' && s[b] == ' ' && s[d] == '.'
      && (forall k :: 0 <= k < a ==> IsDigit(s[k]))
      && (forall k :: b + 1 <= k < d ==> IsDigit(s[k]))
      && (forall k :: d + 1 <= k < q ==> IsDigit(s[k]))
      && (q < |s| ==> !IsDigit(s[q]))
      && (forall k :: 0 <= k < |s| && k != d ==> s[k] != '.')
  {
    RowDigits(id, slug, whole, frac, rest);
    RowDots(id, slug, whole, frac, rest);
  }

  /** The numeric fields of a row are digits, and what follows the fraction is not. */
  lemma RowDigits(id: string, slug: string, whole: string, frac: string, rest: string)
    requires WellFormed(id, slug, whole, frac, rest)
    ensures var s, a := Row(id, slug, whole, frac, rest), |id|;
      var b := a + 1 + |slug|;
      var d := b + 1 + |whole|;
      var q := d + 1 + |frac|;
      && (forall k :: 0 <= k < a ==> IsDigit(s[k]))
      && (forall k :: b + 1 <= k < d ==> IsDigit(s[k]))
      && (forall k :: d + 1 <= k < q ==> IsDigit(s[k]))
      && (q < |s| ==> !IsDigit(s[q]))
  {
    var s, a := Row(id, slug, whole, frac, rest), |id|;
    var b := a + 1 + |slug|;
    var d := b + 1 + |whole|;
    var q := d + 1 + |frac|;
    RowSlices(id, slug, whole, frac, rest);
    forall k | 0 <= k < a ensures IsDigit(s[k]) {
      assert s[k] == s[..a][k];
    }
    forall k | b + 1 <= k < d ensures IsDigit(s[k]) {
      assert s[k] == s[b + 1..d][k - b - 1];
    }
    forall k | d + 1 <= k < q ensures IsDigit(s[k]) {
      assert s[k] == s[d + 1..q][k - d - 1];
    }
    if q < |s| {
      assert s[q] == s[q..][0];
    }
  }

  /** The only `.` of a row is the rating's. */
  lemma RowDots(id: string, slug: string, whole: string, frac: string, rest: string)
    requires WellFormed(id, slug, whole, frac, rest)
    ensures var s := Row(id, slug, whole, frac, rest);
      var d := |id| + |slug| + |whole| + 2;
      forall k :: 0 <= k < |s| && k != d ==> s[k] != '.'
  {
    var s, a := Row(id, slug, whole, frac, rest), |id|;
    var b := a + 1 + |slug|;
    var d := b + 1 + |whole|;
    var q := d + 1 + |frac|;
    RowSlices(id, slug, whole, frac, rest);
    forall k | 0 <= k < |s| && k != d ensures s[k] != '.' {
      if k < a {
        assert s[k] == s[..a][k];
      } else if a < k < b {
        assert s[k] == s[a + 1..b][k - a - 1];
      } else if b < k < d {
        assert s[k] == s[b + 1..d][k - b - 1];
      } else if d < k < q {
        assert s[k] == s[d + 1..q][k - d - 1];
      } else if q <= k {
        assert s[k] == s[q..][k - q] && s[q..][k - q] in rest;
      }
    }
  }

  /** A row has nothing for `strip()` to remove. */
  lemma RowStrip(id: string, slug: string, whole: string, frac: string, rest: string)
    requires WellFormed(id, slug, whole, frac, rest)
    ensures Strip(Row(id, slug, whole, frac, rest)) == Row(id, slug, whole, frac, rest)
    ensures Row(id, slug, whole, frac, rest) != []
  {
    var s := Row(id, slug, whole, frac, rest);
    RowLayout(id, slug, whole, frac, rest);
    RowSlices(id, slug, whole, frac, rest);
    assert !IsSpace(s[0]);
    assert !IsSpace(s[|s| - 1]) by {
      if rest == [] {
        assert s[|s| - 1] == frac[|frac| - 1];
      } else {
        assert s[|s| - 1] == rest[|rest| - 1];
      }
    }
    assert SkipSpaces(s, 0) == 0;
    assert SkipSpacesBack(s, 0, |s|) == |s|;
    assert s[0..|s|] == s;
  }

  /** The first slug on a row is the slug field: the id before it is a lone run of digits. */
  lemma RowSlug(id: string, slug: string, whole: string, frac: string, rest: string)
    requires WellFormed(id, slug, whole, frac, rest)
    ensures var a := |id|;
      Search(SlugPattern, Row(id, slug, whole, frac, rest), 0) == Some((a + 1, a + 1 + |slug|))
  {
    var s := Row(id, slug, whole, frac, rest);
    var a := |id|;
    var b := a + 1 + |slug|;
    RowLayout(id, slug, whole, frac, rest);
    RowSlices(id, slug, whole, frac, rest);
    SlugInLine(s, a + 1, b);
    assert forall k :: 0 <= k < a ==> s[k] != '-';
    assert NoMatchIn(SlugPattern, s, 0, a + 1);
    SearchFinds(SlugPattern, s, 0, a + 1, b);
  }

  /** The only rating on a row is the rating field, so it is also the last one. */
  lemma RowRating(id: string, slug: string, whole: string, frac: string, rest: string)
    requires WellFormed(id, slug, whole, frac, rest)
    ensures var p := |id| + |slug| + 2;
      LastMatch(RatingPattern, Row(id, slug, whole, frac, rest)) == Some((p, p + |whole| + 1 + |frac|))
  {
    var p := |id| + |slug| + 2;
    RatingFieldMatches(id, slug, whole, frac, rest);
    NoOtherRating(id, slug, whole, frac, rest);
    LoneMatchIsLast(RatingPattern, Row(id, slug, whole, frac, rest), p, p + |whole| + 1 + |frac|);
  }

  /** The value read from the rating field is the decimal it spells. */
  lemma RatingFieldValue(id: string, slug: string, whole: string, frac: string, rest: string)
    requires WellFormed(id, slug, whole, frac, rest)
    ensures var p := |id| + |slug| + 2;
      var q := p + |whole| + 1 + |frac|;
      && Shape(RatingPattern, Row(id, slug, whole, frac, rest), p, q)
      && RatingValue(Row(id, slug, whole, frac, rest), p, q) == DecimalValue(whole, frac)
  {
    var s := Row(id, slug, whole, frac, rest);
    var p := |id| + |slug| + 2;
    var d := p + |whole|;
    var q := d + 1 + |frac|;
    RatingFieldMatches(id, slug, whole, frac, rest);
    RowLayout(id, slug, whole, frac, rest);
    RowSlices(id, slug, whole, frac, rest);
    assert RatingDot(s, p, q) == d;
  }

  /** The rating field is a longest match of the rating pattern. */
  lemma RatingFieldMatches(id: string, slug: string, whole: string, frac: string, rest: string)
    requires WellFormed(id, slug, whole, frac, rest)
    ensures var p := |id| + |slug| + 2;
      Longest(RatingPattern, Row(id, slug, whole, frac, rest), p, p + |whole| + 1 + |frac|)
  {
    RowLayout(id, slug, whole, frac, rest);
  }

  /** No rating match starts anywhere on a row except at the rating field. */
  lemma NoOtherRating(id: string, slug: string, whole: string, frac: string, rest: string)
    requires WellFormed(id, slug, whole, frac, rest)
    ensures var s, p := Row(id, slug, whole, frac, rest), |id| + |slug| + 2;
      && NoMatchIn(RatingPattern, s, 0, p)
      && NoMatchIn(RatingPattern, s, p + |whole| + 1 + |frac|, |s|)
  {
    RowLayout(id, slug, whole, frac, rest);
  }

  /** The first standalone run of digits on a row is the id field. */
  lemma RowId(id: string, slug: string, whole: string, frac: string, rest: string)
    requires WellFormed(id, slug, whole, frac, rest)
    ensures Search(IdPattern, Row(id, slug, whole, frac, rest), 0) == Some((0, |id|))
    ensures IdValue(Row(id, slug, whole, frac, rest), 0, |id|) == DigitsValue(id)
  {
    var s := Row(id, slug, whole, frac, rest);
    RowLayout(id, slug, whole, frac, rest);
    RowSlices(id, slug, whole, frac, rest);
    assert DigitRunEnd(s, 0) == |id|;
    assert IdAt(s, 0) == Some(|id|);
    assert s[0..|id|] == id;
  }

}
