/** The bridge selector (`suggest`): records strictly easier than a target and within a rating
    window below it, ranked by how many slug tokens they share with the target and then by how
    close their rating is, cut to a limit. The index is passed in as a value. */
module Bridges {
  import opened Wrappers
  import opened Text
  import opened Ratings

  type Index = map<string, Record>

  /** What `suggest` returns: the ranked bridges and the target's own rating. */
  datatype Suggestion = Suggestion(bridges: seq<Record>, target: real)

  /** The target slug is not a key of the index: `suggest` prints a message and exits with
      status 2. */
  datatype SuggestError = UnknownSlug(slug: string)

  /** `max(delta, 1)`: the widest rating gap allowed below the target. */
  function Window(delta: int): (w: int)
    ensures 1 <= w && delta <= w
    ensures w == 1 || w == delta
  {
    if delta >= 1 then delta else 1
  }

  /** The candidate filter: strictly easier than the target, by at most the window. */
  predicate Eligible(r: Record, target: real, delta: int)
  {
    r.rating < target && target - r.rating <= Window(delta) as real
  }

  /** The keys whose records pass the filter. */
  ghost function EligibleKeys(index: Index, target: real, delta: int): set<string>
  {
    set k | k in index && Eligible(index[k], target, delta)
  }

  /** `set(slug.split("-"))`. */
  function Tokens(slug: string): set<string>
  {
    set t | t in Split(slug, '-')
  }

  /** A slug always has a token, no token holds a dash, and a slug without a dash is its own
      only token. */
  lemma TokensShape(slug: string)
    ensures Tokens(slug) != {}
    ensures forall t :: t in Tokens(slug) ==> '-' !in t
    ensures '-' !in slug ==> Tokens(slug) == {slug}
  {
    var parts := Split(slug, '-');
    assert parts[0] in Tokens(slug);
    if '-' !in slug {
      SplitUnique(slug, '-', [slug]);
    }
  }

  /** `len(key & w)`: the number of dash-separated tokens two slugs share. */
  function Overlap(a: string, b: string): nat
  {
    |Tokens(a) * Tokens(b)|
  }

  /** The shared tokens are symmetric in the two slugs, at most the tokens of either, and all of
      them when the slugs are equal. */
  lemma OverlapBounds(a: string, b: string)
    ensures Overlap(a, b) == Overlap(b, a)
    ensures Overlap(a, b) <= |Tokens(a)| && Overlap(a, b) <= |Tokens(b)|
    ensures Overlap(a, a) == |Tokens(a)|
  {
    var both := Tokens(a) * Tokens(b);
    assert both == Tokens(b) * Tokens(a);
    SubsetCard(both, Tokens(a));
    SubsetCard(both, Tokens(b));
    assert Tokens(a) * Tokens(a) == Tokens(a);
  }

  lemma {:induction false} SubsetCard<T>(a: set<T>, b: set<T>)
    requires a <= b
    ensures |a| <= |b|
    decreases |a|
  {
    if a != {} {
      var x :| x in a;
      SubsetCard(a - {x}, b - {x});
    }
  }

  function Abs(x: real): real
  {
    if x < 0.0 then -x else x
  }

  /** The sort key `(len(key & w), -abs(target - rating))`, kept with the gap un-negated. */
  datatype Rank = Rank(overlap: nat, gap: real)

  /** `score(v)`. */
  function RankOf(slug: string, target: real, r: Record): Rank
  {
    Rank(Overlap(slug, r.slug), Abs(target - r.rating))
  }

  /** `a` may come before `b` in a list sorted with `reverse=True`: more shared tokens, or as
      many and a gap no larger. */
  predicate AtLeast(a: Rank, b: Rank)
  {
    a.overlap > b.overlap || (a.overlap == b.overlap && a.gap <= b.gap)
  }

  /** A record's rank: its overlap is at most the target's token count and is all of it for the
      target's own slug; its gap is the distance between the ratings, zero only at the target. */
  lemma RankBounds(slug: string, target: real, r: Record)
    ensures RankOf(slug, target, r).overlap <= |Tokens(slug)|
    ensures r.slug == slug ==> RankOf(slug, target, r).overlap == |Tokens(slug)|
    ensures var g := RankOf(slug, target, r).gap;
      0.0 <= g && (g == target - r.rating || g == r.rating - target)
    ensures RankOf(slug, target, r).gap == 0.0 <==> r.rating == target
  {
    OverlapBounds(slug, r.slug);
  }

  /** Records in ranking order: every record ranks at least as high as every later one. This is
      `SortedEntries` read on the records alone. */
  ghost predicate Ranked(slug: string, target: real, rs: seq<Record>)
  {
    forall i, j :: 0 <= i < j < |rs| ==> AtLeast(RankOf(slug, target, rs[i]), RankOf(slug, target, rs[j]))
  }

  /** A candidate together with the key it was found under. */
  type Entry = (string, Record)

  /** Entries in ranking order of their records: `Ranked` for lists that keep each record's key. */
  ghost predicate SortedEntries(slug: string, target: real, es: seq<Entry>)
  {
    forall i, j :: 0 <= i < j < |es| ==> AtLeast(RankOf(slug, target, es[i].1), RankOf(slug, target, es[j].1))
  }

  ghost predicate DistinctKeys(es: seq<Entry>)
  {
    forall i, j :: 0 <= i < j < |es| ==> es[i].0 != es[j].0
  }

  /** `bs` are the records of the distinct keys `ks`, position by position. */
  ghost predicate DistinctPicks(index: Index, ks: seq<string>, bs: seq<Record>)
  {
    && |ks| == |bs|
    && (forall i :: 0 <= i < |ks| ==> ks[i] in index && bs[i] == index[ks[i]])
    && (forall i, j :: 0 <= i < j < |ks| ==> ks[i] != ks[j])
  }

  /** Places `x` into a ranked list, before the first entry it ranks at least as high as. */
  function Insert(slug: string, target: real, x: Entry, s: seq<Entry>): (r: seq<Entry>)
    requires SortedEntries(slug, target, s)
    ensures SortedEntries(slug, target, r)
    ensures multiset(r) == multiset(s) + multiset{x}
    decreases |s|
  {
    if |s| == 0 then [x]
    else if AtLeast(RankOf(slug, target, x.1), RankOf(slug, target, s[0].1)) then
      InsertInFront(slug, target, x, s);
      [x] + s
    else
      var rest := Insert(slug, target, x, s[1..]);
      InsertBehindHead(slug, target, x, s, rest);
      [s[0]] + rest
  }

  /** When `x` does not go in front of `s[0]`, putting `s[0]` before `rest` (the tail with `x`
      inserted) keeps the list ranked. */
  lemma InsertBehindHead(slug: string, target: real, x: Entry, s: seq<Entry>, rest: seq<Entry>)
    requires |s| > 0 && SortedEntries(slug, target, s)
    requires !AtLeast(RankOf(slug, target, x.1), RankOf(slug, target, s[0].1))
    requires SortedEntries(slug, target, rest)
    requires multiset(rest) == multiset(s[1..]) + multiset{x}
    ensures SortedEntries(slug, target, [s[0]] + rest)
    ensures multiset([s[0]] + rest) == multiset(s) + multiset{x}
  {
    assert s == [s[0]] + s[1..];
    var head := RankOf(slug, target, s[0].1);
    forall k | 0 <= k < |rest| ensures AtLeast(head, RankOf(slug, target, rest[k].1)) {
      assert rest[k] in multiset(rest);
      if rest[k] != x {
        HeadOutranksTail(slug, target, s, rest[k]);
      }
    }
    ConsSorted(slug, target, s[0], rest);
  }

  /** An entry that ranks at least as high as the head of a ranked list can lead it. */
  lemma InsertInFront(slug: string, target: real, x: Entry, s: seq<Entry>)
    requires |s| > 0 && SortedEntries(slug, target, s)
    requires AtLeast(RankOf(slug, target, x.1), RankOf(slug, target, s[0].1))
    ensures SortedEntries(slug, target, [x] + s)
  {
    var top := RankOf(slug, target, x.1);
    forall k | 0 <= k < |s| ensures AtLeast(top, RankOf(slug, target, s[k].1)) {
      if k > 0 {
        SortedAt(slug, target, s, 0, k);
      }
    }
    ConsSorted(slug, target, x, s);
  }

  /** The head of a ranked list ranks at least as high as anything after it. */
  lemma HeadOutranksTail(slug: string, target: real, s: seq<Entry>, y: Entry)
    requires |s| > 0 && SortedEntries(slug, target, s) && y in s[1..]
    ensures AtLeast(RankOf(slug, target, s[0].1), RankOf(slug, target, y.1))
  {
    var m :| 0 <= m < |s| - 1 && s[1..][m] == y;
    assert s[m + 1] == y;
  }

  /** An entry that ranks at least as high as every element of a ranked list can lead it. */
  lemma ConsSorted(slug: string, target: real, h: Entry, rest: seq<Entry>)
    requires SortedEntries(slug, target, rest)
    requires forall k :: 0 <= k < |rest| ==> AtLeast(RankOf(slug, target, h.1), RankOf(slug, target, rest[k].1))
    ensures SortedEntries(slug, target, [h] + rest)
  {
    var r := [h] + rest;
    forall i, j | 0 <= i < j < |r| ensures AtLeast(RankOf(slug, target, r[i].1), RankOf(slug, target, r[j].1)) {
      ConsPair(slug, target, h, rest, i, j);
    }
  }

  /** One pair of positions of `[h] + rest`, for `ConsSorted`. */
  lemma ConsPair(slug: string, target: real, h: Entry, rest: seq<Entry>, i: nat, j: nat)
    requires SortedEntries(slug, target, rest)
    requires forall k :: 0 <= k < |rest| ==> AtLeast(RankOf(slug, target, h.1), RankOf(slug, target, rest[k].1))
    requires i < j <= |rest|
    ensures AtLeast(RankOf(slug, target, ([h] + rest)[i].1), RankOf(slug, target, ([h] + rest)[j].1))
  {
    var r := [h] + rest;
    assert r[j] == rest[j - 1];
    if i == 0 {
      assert r[i] == h;
      assert AtLeast(RankOf(slug, target, h.1), RankOf(slug, target, rest[j - 1].1));
    } else {
      assert r[i] == rest[i - 1];
      assert AtLeast(RankOf(slug, target, rest[i - 1].1), RankOf(slug, target, rest[j - 1].1));
    }
  }

  /** `cands.sort(key=score, reverse=True)`: a permutation of the candidates in ranking order. */
  function SortByRank(slug: string, target: real, s: seq<Entry>): (r: seq<Entry>)
    ensures SortedEntries(slug, target, r)
    ensures multiset(r) == multiset(s)
    decreases |s|
  {
    if |s| == 0 then []
    else
      assert s == [s[0]] + s[1..];
      Insert(slug, target, s[0], SortByRank(slug, target, s[1..]))
  }

  /** The length of `xs[:limit]` for a list of length `n`: `min(limit, n)` for a non-negative
      limit; a negative limit drops that many elements from the end, down to none. */
  function PrefixLength(n: nat, limit: int): (l: nat)
    ensures l <= n
    ensures 0 <= limit ==> l <= limit && (l == limit || l == n)
    ensures limit < 0 ==> n + limit <= l && (l == n + limit || l == 0)
  {
    if limit >= 0 then (if limit < n then limit else n)
    else if n + limit > 0 then n + limit else 0
  }

  function KeySet(es: seq<Entry>): set<string>
  {
    set e | e in es :: e.0
  }

  /** Entries with distinct keys have as many keys as entries. */
  lemma {:induction false} DistinctKeysCount(es: seq<Entry>)
    requires DistinctKeys(es)
    ensures |KeySet(es)| == |es|
    decreases |es|
  {
    if |es| > 0 {
      var init := es[..|es| - 1];
      var last := es[|es| - 1];
      assert DistinctKeys(init);
      DistinctKeysCount(init);
      assert es == init + [last];
      assert KeySet(es) == KeySet(init) + {last.0};
      assert last.0 !in KeySet(init);
    }
  }

  /** The list comprehension of `suggest`: every record of the index that passes the filter, with
      its key, each key once, in the order the keys happen to be visited. */
  method Gather(index: Index, target: real, delta: int) returns (cands: seq<Entry>)
    ensures forall e :: e in cands ==> e.0 in index && e.1 == index[e.0] && Eligible(e.1, target, delta)
    ensures forall k :: k in EligibleKeys(index, target, delta) ==> (k, index[k]) in cands
    ensures DistinctKeys(cands)
    ensures |cands| == |EligibleKeys(index, target, delta)|
  {
    var todo := index.Keys;
    cands := [];
    while todo != {}
      invariant todo <= index.Keys
      invariant forall e :: e in cands ==> e.0 in index && e.0 !in todo && e.1 == index[e.0] && Eligible(e.1, target, delta)
      invariant forall k :: k in EligibleKeys(index, target, delta) && k !in todo ==> (k, index[k]) in cands
      invariant DistinctKeys(cands)
      decreases todo
    {
      var k :| k in todo;
      if Eligible(index[k], target, delta) {
        assert forall i :: 0 <= i < |cands| ==> cands[i].0 != k by {
          assert forall i :: 0 <= i < |cands| ==> cands[i] in cands;
        }
        cands := cands + [(k, index[k])];
      }
      todo := todo - {k};
    }
    assert KeySet(cands) == EligibleKeys(index, target, delta);
    DistinctKeysCount(cands);
  }

  lemma {:induction false} DistinctKeysCountOne(es: seq<Entry>, x: Entry)
    requires DistinctKeys(es)
    ensures multiset(es)[x] <= 1
    decreases |es|
  {
    if |es| > 0 {
      var init := es[..|es| - 1];
      assert es == init + [es[|es| - 1]];
      assert DistinctKeys(init);
      DistinctKeysCountOne(init, x);
      if es[|es| - 1] == x {
        assert x !in init by {
          assert forall i :: 0 <= i < |init| ==> init[i].0 != x.0;
        }
      }
    }
  }

  lemma RepeatCountsTwice(es: seq<Entry>, i: nat, j: nat)
    requires i < j < |es| && es[i] == es[j]
    ensures multiset(es)[es[i]] >= 2
  {
    assert es == es[..j] + [es[j]] + es[j + 1..];
    assert es[i] in es[..j];
  }

  /** Reordering entries with distinct keys keeps their keys distinct. */
  lemma PermutationKeepsDistinctKeys(index: Index, a: seq<Entry>, b: seq<Entry>)
    requires multiset(a) == multiset(b)
    requires DistinctKeys(a)
    requires forall e :: e in a ==> e.0 in index && e.1 == index[e.0]
    ensures DistinctKeys(b)
  {
    forall i, j | 0 <= i < j < |b| ensures b[i] != b[j] {
      if b[i] == b[j] {
        RepeatCountsTwice(b, i, j);
        DistinctKeysCountOne(a, b[i]);
      }
    }
    forall i, j | 0 <= i < j < |b| ensures b[i].0 != b[j].0 {
      assert b[i] in multiset(a) && b[j] in multiset(a);
    }
  }

  /** `suggest(slug, delta, limit)` on a loaded index. An unknown slug is an error, not an empty
      list. Otherwise the bridges are the top `limit` eligible records (Python slice rules for a
      negative limit), each from a different key, in ranking order, and nothing left out ranks
      above anything kept. Records that tie on both rank components may come in any order. */
  method Suggest(index: Index, slug: string, delta: int, limit: int)
    returns (r: Result<Suggestion, SuggestError>)
    ensures slug !in index <==> r.Failure?
    ensures r.Failure? ==> r.error == UnknownSlug(slug)
    ensures r.Success? ==> r.value.target == index[slug].rating
    ensures r.Success? ==>
      |r.value.bridges| == PrefixLength(|EligibleKeys(index, r.value.target, delta)|, limit)
    ensures r.Success? ==>
      forall b :: b in r.value.bridges ==> b in index.Values && Eligible(b, r.value.target, delta)
    ensures r.Success? ==> index[slug] !in r.value.bridges
    ensures r.Success? ==> exists ks :: DistinctPicks(index, ks, r.value.bridges)
    ensures r.Success? ==> Ranked(slug, r.value.target, r.value.bridges)
    ensures r.Success? ==>
      forall k :: k in EligibleKeys(index, r.value.target, delta) && index[k] !in r.value.bridges ==>
        forall b :: b in r.value.bridges ==>
          AtLeast(RankOf(slug, r.value.target, b), RankOf(slug, r.value.target, index[k]))
  {
    if slug !in index {
      return Failure(UnknownSlug(slug));
    }
    var target := index[slug].rating;
    var cands := Gather(index, target, delta);
    var sorted := SortByRank(slug, target, cands);
    SortKeepsCandidates(index, cands, sorted);
    var n := PrefixLength(|sorted|, limit);
    var bridges := Values(sorted[..n]);
    PrefixPicks(index, sorted, n);
    PrefixRanked(slug, target, sorted, n);
    forall k | k in EligibleKeys(index, target, delta) && index[k] !in bridges
      ensures forall b :: b in bridges ==> AtLeast(RankOf(slug, target, b), RankOf(slug, target, index[k]))
    {
      PrefixOutranks(slug, target, sorted, n, (k, index[k]));
    }
    return Success(Suggestion(bridges, target));
  }

  function Values(es: seq<Entry>): (rs: seq<Record>)
    ensures |rs| == |es| && forall i :: 0 <= i < |es| ==> rs[i] == es[i].1
  {
    seq(|es|, i requires 0 <= i < |es| => es[i].1)
  }

  function Keys(es: seq<Entry>): (ks: seq<string>)
    ensures |ks| == |es| && forall i :: 0 <= i < |es| ==> ks[i] == es[i].0
  {
    seq(|es|, i requires 0 <= i < |es| => es[i].0)
  }

  /** Sorting the gathered candidates keeps exactly them, each key once. */
  lemma SortKeepsCandidates(index: Index, cands: seq<Entry>, sorted: seq<Entry>)
    requires multiset(sorted) == multiset(cands)
    requires DistinctKeys(cands)
    requires forall e :: e in cands ==> e.0 in index && e.1 == index[e.0]
    ensures forall e :: e in sorted <==> e in cands
    ensures |sorted| == |cands|
    ensures DistinctKeys(sorted)
  {
    forall e ensures e in sorted <==> e in cands {
      assert e in sorted <==> e in multiset(sorted);
    }
    assert |multiset(sorted)| == |multiset(cands)|;
    PermutationKeepsDistinctKeys(index, cands, sorted);
  }

  /** A prefix of entries with distinct keys picks distinct keys. */
  lemma PrefixPicks(index: Index, es: seq<Entry>, n: nat)
    requires n <= |es| && DistinctKeys(es)
    requires forall e :: e in es ==> e.0 in index && e.1 == index[e.0]
    ensures DistinctPicks(index, Keys(es[..n]), Values(es[..n]))
  {
    assert forall i :: 0 <= i < n ==> es[..n][i] == es[i] && es[i] in es;
  }

  /** A prefix of a ranked list is ranked. */
  lemma PrefixRanked(slug: string, target: real, es: seq<Entry>, n: nat)
    requires n <= |es| && SortedEntries(slug, target, es)
    ensures Ranked(slug, target, Values(es[..n]))
  {
    var rs := Values(es[..n]);
    assert forall i :: 0 <= i < n ==> rs[i] == es[i].1;
  }

  /** An entry of a ranked list whose record the prefix does not hold ranks no higher than
      anything in the prefix. */
  lemma PrefixOutranks(slug: string, target: real, es: seq<Entry>, n: nat, e: Entry)
    requires n <= |es| && SortedEntries(slug, target, es)
    requires e in es && e.1 !in Values(es[..n])
    ensures forall b :: b in Values(es[..n]) ==> AtLeast(RankOf(slug, target, b), RankOf(slug, target, e.1))
  {
    var rs := Values(es[..n]);
    var p :| 0 <= p < |es| && es[p] == e;
    OutsidePrefix(es, n, p);
    forall b | b in rs ensures AtLeast(RankOf(slug, target, b), RankOf(slug, target, e.1)) {
      var q :| 0 <= q < n && rs[q] == b;
      SortedAt(slug, target, es, q, p);
    }
  }

  /** A position whose record the prefix of length `n` does not hold lies beyond it. */
  lemma OutsidePrefix(es: seq<Entry>, n: nat, p: nat)
    requires n <= |es| && p < |es| && es[p].1 !in Values(es[..n])
    ensures n <= p
  {
    var rs := Values(es[..n]);
    assert forall i :: 0 <= i < n ==> rs[i] == es[i].1 && rs[i] in rs;
  }

  /** Two positions of a ranked list, in order. */
  lemma SortedAt(slug: string, target: real, es: seq<Entry>, i: nat, j: nat)
    requires SortedEntries(slug, target, es) && i < j < |es|
    ensures AtLeast(RankOf(slug, target, es[i].1), RankOf(slug, target, es[j].1))
  {
  }
}
