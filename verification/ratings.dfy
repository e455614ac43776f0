/** The ratings extractor: one loosely formatted line per problem, folded into an index keyed
    by slug where a later line overwrites an earlier one with the same slug. */
module Ratings {
  import opened Wrappers
  import opened Text
  import opened Patterns

  /** One index entry: the slug, the exact decimal rating, and the problem id when one was found. */
  datatype Record = Record(slug: string, rating: real, problemId: Option<nat>)

  /** `t` is a whole slug: lower-case alphanumeric tokens, at least two, joined by single dashes. */
  ghost predicate IsSlug(t: string)
  {
    Shape(SlugPattern, t, 0, |t|)
  }

  /** A slug-shaped span, cut out of its line, is a slug on its own. */
  lemma SlugSpanIsSlug(s: string, i: int, j: int)
    requires Shape(SlugPattern, s, i, j)
    ensures IsSlug(s[i..j])
  {
    var t := s[i..j];
    var d :| i <= d < j && s[d] == '-';
    assert t[d - i] == '-';
    forall k | 0 <= k < |t| ensures DashThenAlnum(t, k, |t|) {
      assert DashThenAlnum(s, i + k, j);
    }
  }

  /** A slug placed inside a line is a slug-shaped span of that line. */
  lemma SlugInLine(s: string, i: nat, j: nat)
    requires i < j <= |s| && IsSlug(s[i..j])
    ensures Shape(SlugPattern, s, i, j)
  {
    var t := s[i..j];
    var d :| 0 <= d < |t| && t[d] == '-';
    assert s[i + d] == '-';
    forall k | i <= k < j ensures DashThenAlnum(s, k, j) && (IsLowerAlnum(s[k]) || s[k] == '-') {
      assert s[k] == t[k - i];
      assert DashThenAlnum(t, k - i, |t|);
    }
  }

  /** The per-line body of `parse_ratings_txt`: strip the line, take the first slug, the last
      rating and the first standalone id; a line without a slug or a rating gives nothing.
      What each field means is stated by `ParseLineMeaning`. */
  function ParseLine(raw: string): (r: Option<Record>)
    ensures r.Some? ==> IsSlug(r.value.slug)
  {
    var line := Strip(raw);
    if line == [] then None
    else
      match (Search(SlugPattern, line, 0), LastMatch(RatingPattern, line))
      case (Some((a, b)), Some((c, d))) =>
        SlugSpanIsSlug(line, a, b);
        var pid := match Search(IdPattern, line, 0)
                   case Some((e, f)) => Some(IdValue(line, e, f))
                   case None => None;
        Some(Record(line[a..b], RatingValue(line, c, d), pid))
      case _ => None
  }

  /** What a parsed line holds, in terms of the three patterns: a record exists exactly when the
      stripped line has a slug match and a rating match; the slug is the leftmost (longest)
      slug match; the rating is the value of the last match `re.finditer` reports; the id is
      present exactly when a standalone run of one to five digits exists, and is the first. */
  lemma ParseLineMeaning(raw: string)
    ensures var line := Strip(raw);
      ParseLine(raw).Some? <==> line != [] && HasMatch(SlugPattern, line) && HasMatch(RatingPattern, line)
    ensures ParseLine(raw).Some? ==> var line, r := Strip(raw), ParseLine(raw).value;
      exists i, j :: Leftmost(SlugPattern, line, 0, i, j) && r.slug == line[i..j]
    ensures ParseLine(raw).Some? ==> var line, r := Strip(raw), ParseLine(raw).value;
      exists i, j :: && Shape(RatingPattern, line, i, j)
                     && LastScanned(RatingPattern, line, i, j)
                     && r.rating == RatingValue(line, i, j)
    ensures ParseLine(raw).Some? ==> var line, r := Strip(raw), ParseLine(raw).value;
      r.problemId.Some? <==> HasMatch(IdPattern, line)
    ensures ParseLine(raw).Some? && ParseLine(raw).value.problemId.Some? ==>
      var line, r := Strip(raw), ParseLine(raw).value;
      exists i, j :: Leftmost(IdPattern, line, 0, i, j) && r.problemId.value == IdValue(line, i, j)
  {
    var line := Strip(raw);
    if line != [] {
      var s, l, d := Search(SlugPattern, line, 0), LastMatch(RatingPattern, line), Search(IdPattern, line, 0);
      if s.Some? && l.Some? && d.Some? {
        assert HasMatch(IdPattern, line) by {
          assert Shape(IdPattern, line, d.value.0, d.value.1);
        }
      }
      if s.Some? {
        assert HasMatch(SlugPattern, line) by {
          assert Shape(SlugPattern, line, s.value.0, s.value.1);
        }
      }
    }
  }

  /** The record of a line that `strip()` leaves alone, read off what its three searches find. */
  lemma ParseLineFrom(line: string, slug: string, rating: real, id: nat)
    requires Strip(line) == line && line != []
    requires var m := Search(SlugPattern, line, 0);
      m.Some? && line[m.value.0..m.value.1] == slug
    requires var m := LastMatch(RatingPattern, line);
      m.Some? && RatingValue(line, m.value.0, m.value.1) == rating
    requires var m := Search(IdPattern, line, 0);
      m.Some? && IdValue(line, m.value.0, m.value.1) == id
    ensures ParseLine(line) == Some(Record(slug, rating, Some(id)))
  {
  }

  /** `line` yields a record for `slug`. */
  predicate ParsesTo(line: string, slug: string)
  {
    ParseLine(line).Some? && ParseLine(line).value.slug == slug
  }

  /** The loop of `parse_ratings_txt` over the per-line results: start from an empty index and
      assign `out[slug] = record` for each line that gave one, in order. */
  function Collect(recs: seq<Option<Record>>): (index: map<string, Record>)
    ensures |index| <= |recs|
    ensures forall k :: k in index ==> index[k].slug == k && Some(index[k]) in recs
    decreases |recs|
  {
    if |recs| == 0 then map[]
    else
      var init := recs[..|recs| - 1];
      var prev := Collect(init);
      assert forall i :: 0 <= i < |init| ==> init[i] == recs[i];
      match recs[|recs| - 1]
      case None => prev
      case Some(rec) => prev[rec.slug := rec]
  }

  /** Collecting a concatenation is the right-biased union of the parts: every key of the later
      part overwrites the same key of the earlier part. */
  lemma {:induction false} CollectConcat(a: seq<Option<Record>>, b: seq<Option<Record>>)
    ensures Collect(a + b) == Collect(a) + Collect(b)
    decreases |b|
  {
    if |b| == 0 {
      assert a + b == a;
    } else {
      var b' := b[..|b| - 1];
      assert (a + b)[..|a + b| - 1] == a + b';
      assert (a + b)[|a + b| - 1] == b[|b| - 1];
      CollectConcat(a, b');
      match b[|b| - 1]
      case None =>
      case Some(rec) =>
        assert Collect(a + b) == (Collect(a) + Collect(b'))[rec.slug := rec];
        UnionThenUpdate(Collect(a), Collect(b'), rec.slug, rec);
    }
  }

  /** Updating a right-biased union is updating its right part. */
  lemma UnionThenUpdate(m: map<string, Record>, n: map<string, Record>, k: string, v: Record)
    ensures (m + n)[k := v] == m + n[k := v]
  {
  }

  /** The per-line results of a whole source, in line order. */
  function ParseEach(lines: seq<string>): (recs: seq<Option<Record>>)
    ensures |recs| == |lines|
    ensures forall i :: 0 <= i < |lines| ==> recs[i] == ParseLine(lines[i])
  {
    seq(|lines|, i requires 0 <= i < |lines| => ParseLine(lines[i]))
  }

  lemma ParseEachConcat(a: seq<string>, b: seq<string>)
    ensures ParseEach(a + b) == ParseEach(a) + ParseEach(b)
  {
  }

  /** `parse_ratings_txt` on already decoded lines: at most one entry per line, each keyed by
      its own slug, and each key a slug. */
  function Parse(lines: seq<string>): (index: map<string, Record>)
    ensures |index| <= |lines|
    ensures forall k :: k in index ==> index[k].slug == k && IsSlug(k)
  {
    var recs := ParseEach(lines);
    var index := Collect(recs);
    assert forall k :: k in index ==> IsSlug(k) by {
      forall k | k in index ensures IsSlug(k) {
        var i :| 0 <= i < |recs| && recs[i] == Some(index[k]);
      }
    }
    index
  }

  /** Last write wins, over the per-line results: the entry for a slug is the record at the
      last position that holds a record for it. */
  lemma CollectLastWins(recs: seq<Option<Record>>, i: nat)
    requires i < |recs| && recs[i].Some?
    requires forall j :: i < j < |recs| && recs[j].Some? ==> recs[j].value.slug != recs[i].value.slug
    ensures recs[i].value.slug in Collect(recs)
    ensures Collect(recs)[recs[i].value.slug] == recs[i].value
  {
    var rec := recs[i].value;
    var back := recs[i + 1..];
    assert forall j :: 0 <= j < |back| ==> back[j] == recs[i + 1 + j];
    CollectAbsent(back, rec.slug);
    CollectSplit(recs, i + 1);
    CollectLast(recs[..i + 1]);
    assert recs[..i + 1][i] == Some(rec);
  }

  /** Collecting a sequence is collecting its two halves, the later one overwriting. */
  lemma CollectSplit(recs: seq<Option<Record>>, n: nat)
    requires n <= |recs|
    ensures Collect(recs) == Collect(recs[..n]) + Collect(recs[n..])
  {
    assert recs == recs[..n] + recs[n..];
    CollectConcat(recs[..n], recs[n..]);
  }

  /** The last position's record is the entry for its slug. */
  lemma CollectLast(recs: seq<Option<Record>>)
    requires |recs| > 0 && recs[|recs| - 1].Some?
    ensures Collect(recs)[recs[|recs| - 1].value.slug] == recs[|recs| - 1].value
  {
  }

  /** Every slug some position holds a record for is a key. */
  lemma {:induction false} CollectPresent(recs: seq<Option<Record>>, j: nat)
    requires j < |recs| && recs[j].Some?
    ensures recs[j].value.slug in Collect(recs)
    decreases |recs|
  {
    if j < |recs| - 1 {
      var init := recs[..|recs| - 1];
      assert init[j] == recs[j];
      CollectPresent(init, j);
    }
  }

  /** A position without a record changes nothing. */
  lemma CollectNone(recs: seq<Option<Record>>)
    ensures Collect(recs + [None]) == Collect(recs)
  {
    assert (recs + [None])[..|recs|] == recs;
  }

  /** A slug that no position holds a record for is not a key. */
  lemma CollectAbsent(recs: seq<Option<Record>>, slug: string)
    requires forall j :: 0 <= j < |recs| && recs[j].Some? ==> recs[j].value.slug != slug
    ensures slug !in Collect(recs)
  {
  }

  /** Last write wins: the entry for a slug is the record of the last line that parses to it. */
  lemma LastWriteWins(lines: seq<string>, i: nat)
    requires i < |lines| && ParseLine(lines[i]).Some?
    requires forall j :: i < j < |lines| ==> !ParsesTo(lines[j], ParseLine(lines[i]).value.slug)
    ensures ParseLine(lines[i]).value.slug in Parse(lines)
    ensures Parse(lines)[ParseLine(lines[i]).value.slug] == ParseLine(lines[i]).value
  {
    var recs := ParseEach(lines);
    CollectLastWins(recs, i);
  }

  /** A line that is blank, or lacks a slug or a rating, leaves the index as it would be
      without it. */
  lemma SkippedLine(before: seq<string>, line: string, after: seq<string>)
    requires ParseLine(line).None?
    ensures Parse(before + [line] + after) == Parse(before + after)
  {
    var b, a := ParseEach(before), ParseEach(after);
    ParseEachConcat(before + [line], after);
    ParseEachConcat(before, [line]);
    ParseEachConcat(before, after);
    assert ParseEach([line]) == [None];
    CollectSkip(b, a);
  }

  lemma CollectSkip(b: seq<Option<Record>>, a: seq<Option<Record>>)
    ensures Collect(b + [None] + a) == Collect(b + a)
  {
    CollectConcat(b + [None], a);
    CollectConcat(b, a);
    CollectNone(b);
  }

  /** The keys of the index are exactly the slugs the lines yield. */
  lemma KeysAreParsedSlugs(lines: seq<string>, slug: string)
    ensures slug in Parse(lines) <==> exists i :: 0 <= i < |lines| && ParsesTo(lines[i], slug)
  {
    var recs := ParseEach(lines);
    if i :| 0 <= i < |lines| && ParsesTo(lines[i], slug) {
      CollectPresent(recs, i);
    } else {
      CollectAbsent(recs, slug);
    }
  }
}
