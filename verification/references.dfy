/** Resolving a user's problem reference (a bare slug or a problem URL) to a slug. */
module References {
  import opened Wrappers

  const Marker: string := "problems/"

  /** The regex `problems/([^/]+)/` matches at `i`, and its group is `s[i + |Marker|..j]`:
      the marker, a non-empty run of characters other than `/`, then a `/` at `j`. */
  ghost predicate SegmentSpan(s: string, i: int, j: int)
  {
    && 0 <= i
    && i + |Marker| < j < |s|
    && s[i..i + |Marker|] == Marker
    && s[j] == '/'
    && '/' !in s[i + |Marker|..j]
  }

  /** The first `/` at or after `k`, or `|s|` when there is none. */
  function SlashFrom(s: string, k: nat): (e: nat)
    requires k <= |s|
    ensures k <= e <= |s|
    ensures '/' !in s[k..e]
    ensures e < |s| ==> s[e] == '/'
    decreases |s| - k
  {
    if k == |s| || s[k] == '/' then k
    else
      var e := SlashFrom(s, k + 1);
      assert s[k..e] == [s[k]] + s[k + 1..e];
      e
  }

  /** The engine for `problems/([^/]+)/` at start `i`: `[^/]+` runs greedily up to the next `/`;
      giving characters back cannot help, because the character after a shorter run is not `/`. */
  function SegmentAt(s: string, i: nat): (r: Option<nat>)
    ensures r.Some? ==> SegmentSpan(s, i, r.value)
    ensures r.None? ==> forall j :: !SegmentSpan(s, i, j)
  {
    if i + |Marker| <= |s| && s[i..i + |Marker|] == Marker then
      var e := SlashFrom(s, i + |Marker|);
      if i + |Marker| < e < |s| then Some(e)
      else
        None
    else
      None
  }

  /** `re.search(r"problems/([^/]+)/", s)` from position `from`. */
  function FindSegment(s: string, from: nat): (r: Option<(nat, nat)>)
    requires from <= |s|
    ensures r.Some? ==> from <= r.value.0 && SegmentSpan(s, r.value.0, r.value.1)
    ensures r.Some? ==> forall i, j :: from <= i < r.value.0 ==> !SegmentSpan(s, i, j)
    ensures r.None? ==> forall i, j :: from <= i ==> !SegmentSpan(s, i, j)
    decreases |s| - from
  {
    if from == |s| then None
    else
      match SegmentAt(s, from)
      case Some(j) => Some((from, j))
      case None => FindSegment(s, from + 1)
  }

  /** Positions where the pattern cannot start are skipped: the search from `from` finds what
      the search from `until` finds. */
  lemma {:induction false} FindSegmentSkips(s: string, from: nat, until: nat)
    requires from <= until <= |s|
    requires forall k :: from <= k < until ==> SegmentAt(s, k).None?
    ensures FindSegment(s, from) == FindSegment(s, until)
    decreases until - from
  {
    if from < until {
      FindSegmentSkips(s, from + 1, until);
    }
  }

  /** `normalize_slug`: the group of the first `problems/<segment>/` in `s`, or `s` itself. */
  function Normalize(s: string): (r: string)
    ensures (forall i, j :: !SegmentSpan(s, i, j)) ==> r == s
    ensures (exists i, j :: SegmentSpan(s, i, j)) ==>
              exists i, j :: && SegmentSpan(s, i, j)
                             && (forall i', j' :: i' < i ==> !SegmentSpan(s, i', j'))
                             && r == s[i + |Marker|..j]
    ensures r != s ==> |r| > 0 && '/' !in r
  {
    match FindSegment(s, 0)
    case Some((i, j)) => s[i + |Marker|..j]
    case None => s
  }

  /** Resolving a reference twice gives what resolving it once gives: an extracted segment
      holds no `/`, so the marker pattern cannot match it again. */
  lemma NormalizeIdempotent(s: string)
    ensures Normalize(Normalize(s)) == Normalize(s)
  {
    var r := Normalize(s);
    if r != s {
      forall i, j ensures !SegmentSpan(r, i, j) {
        if 0 <= j < |r| { assert r[j] in r; }
      }
    }
  }
}
