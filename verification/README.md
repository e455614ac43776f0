# leetcoach core in Dafny

leetcoach is a small command-line coach for LeetCode practice. Its core does
three things:

- It turns a problem reference into a slug. A reference is either a
  `.../problems/<slug>/...` URL or a bare slug.
- It parses the community "Zerotrac" `ratings.txt` table into an index from
  slug to a record `{slug, rating, problem_id}`. Each line is read
  heuristically. The slug is the leftmost match of `[a-z0-9]+(?:-[a-z0-9]+)+`,
  which can start inside a word: `Two-sum` yields `wo-sum`. The
  rating is the last match of `\d{3,4}\.\d+`. The pattern is not anchored, so
  the match can start inside a longer digit run: `12345.6` yields `2345.6`.
  The problem id is the first run of one to five digits with a word boundary
  `\b` on both sides.
- It suggests "bridge" problems for a target slug. A bridge is rated below
  the target, but by no more than `max(delta, 1)`. Bridges are ranked by how
  many dash-separated words their slug shares with the target's slug, then
  by closeness in rating. The ranked list is cut to `limit`.

The model has these modules:

- `Wrappers` holds `Option` and `Result`.
- `Text` covers Python's `str.strip()`, `str.split('-')` and digit-string
  values.
- `Patterns` covers the three regular expressions. Each has a declarative
  `Shape`. There are matchers for `re.search` (leftmost, greedy) and for
  `re.finditer` (a left-to-right scan with no overlaps). There are also the
  `float(...)` and `int(...)` conversions of the matched text.
- `References` covers `normalize_slug`.
- `Ratings` covers the per-line parse and the index it builds. Later lines
  overwrite earlier ones with the same slug.
- `Bridges` covers `suggest`. The loaded index is a parameter. An unknown
  slug is a `Failure`.
- `Rows` proves what the parser reads from any regular row of the table.
- `Scenarios` holds worked examples.

## Model

| member | source | states |
|---|---|---|
| Text.Strip | leetcoach.py:28 | The result is a contiguous slice of the line. Only whitespace lies on either side of it, and it neither starts nor ends with whitespace. It is empty exactly when the line is all whitespace. |
| Text.Split | leetcoach.py:70 | Splitting on `-` gives at least one piece. No piece contains `-`. Joining the pieces with `-` gives back the slug. |
| Text.SplitUnique | leetcoach.py:70 | Any list of dash-free pieces that joins back to the slug is the split. So the token sets used for overlap are determined by the slug alone. |
| Text.DigitsValue | leetcoach.py:41 | The value of a digit string of length n is below 10^n. |
| Text.DecimalValue | leetcoach.py:38 | `float()` of the numeral `whole.frac`, as an exact decimal, is at least the integer part and below the integer part plus one. |
| Text.OneDigit | leetcoach.py:41 | `int()` of a single digit is its distance from `0`. |
| Text.DigitsConcat | leetcoach.py:41 | `int()` reads digits left to right: the value of `a + b` is `a`'s value times 10^len(b) plus `b`'s value. With `OneDigit` this fixes the value of every digit string. |
| Text.DecimalIsShiftedDigits | leetcoach.py:38 | `float("whole.frac")` equals the integer value of the digits with the dot removed, divided by 10^len(frac). |
| Patterns.SlugAt | leetcoach.py:11 | A match at a position is the longest slug shape there: alphanumeric runs joined by single dashes, with at least one dash. No match means no slug shape starts there. |
| Patterns.RatingAt | leetcoach.py:9 | A match at a position is the longest "three or four digits, dot, digits" shape there. No match means no such shape starts there. |
| Patterns.IdAt | leetcoach.py:40 | A match at a position is the longest run of one to five digits with a word boundary on both sides. No match means none starts there. |
| Patterns.Search | leetcoach.py:31 | The result is the leftmost start with a match, taking the greedy match there. No result means no shape occurs from the given position on. |
| Patterns.SearchFinds | leetcoach.py:31 | Any greedy match with no match starting before it is exactly what the search reports. |
| Patterns.FindAll | leetcoach.py:33-34 | The list is the left-to-right scan with no overlaps. Each match is the leftmost match at or after the previous one's end, and no match follows the last one. Every match is non-empty and lies after the start position. |
| Patterns.ScanUnique | leetcoach.py:33-34 | Exactly one list of matches satisfies the scan. So "the last match found" is well defined. |
| Patterns.ScanLast | leetcoach.py:33-34 | The last element of a scan is a match, and no further match starts after its end. |
| Patterns.LastMatch | leetcoach.py:32-34 | No result means the pattern never matches. Otherwise the result is the last match of the scan. It is the longest match at its start, and no match starts after its end. |
| Patterns.LastMatchOfScan | leetcoach.py:32-34 | Whatever list of matches satisfies the scan, its last element is what `m_rat` holds after the loop. |
| Patterns.LoneMatchIsLast | leetcoach.py:32-34 | When a line has a leftmost match and no match after its end, the loop leaves `m_rat` on that match. |
| Patterns.RatingDot | leetcoach.py:9 | A rating match has its `.` after three or four leading digits, with digits on both sides and at least one digit after it. |
| Patterns.RatingValue | leetcoach.py:38 | The value of a rating-shaped span is the exact decimal of its digits, so it lies in [0, 10000). |
| Patterns.RatingIsShiftedDigits | leetcoach.py:38 | The rating of a match is the matched numeral with its dot removed, read as an integer, over 10 to the number of digits after the dot. |
| Patterns.IdValue | leetcoach.py:41 | The integer value of an id-shaped span is below 100000. |
| References.SegmentAt | leetcoach.py:16 | At a given position, `problems/` is followed by a non-empty segment without `/` and then `/`, or no such span starts there. |
| References.FindSegment | leetcoach.py:16 | The result is the leftmost position where such a span starts, or the span occurs nowhere from the given position on. |
| References.FindSegmentSkips | leetcoach.py:16 | Positions where `problems/<segment>/` cannot start do not change what the search finds. |
| References.Normalize | leetcoach.py:14-17 | A string without a `problems/<segment>/` span comes back unchanged. Otherwise the result is the segment of the leftmost span. When the result differs from the input, it is non-empty and has no `/`. |
| References.NormalizeIdempotent | leetcoach.py:14-17 | Normalizing twice equals normalizing once. |
| Ratings.SlugSpanIsSlug | leetcoach.py:37 | Text cut out of a slug-shaped span is itself a whole slug. |
| Ratings.SlugInLine | leetcoach.py:11 | Any whole slug placed inside a line is a span of the line that the slug pattern's shape accepts. |
| Ratings.ParseLine | leetcoach.py:28-42 | Any record produced has a slug that is a whole slug token. |
| Ratings.ParseLineMeaning | leetcoach.py:28-42 | A record is produced exactly when the stripped line is non-empty and contains both a slug and a rating. Its slug is the leftmost slug match. Its rating is the value of the last rating match. Its problem id is present exactly when an id matches, and then it is the value of the leftmost id match. |
| Ratings.ParseLineFrom | leetcoach.py:28-42 | A non-empty line without surrounding whitespace, whose slug search, last rating match and id search find a slug, a rating and an id, yields exactly that record. |
| Ratings.ParseEach | leetcoach.py:27-42 | The per-line pass of `for raw in f`: one result per line, in line order, each the record that line yields or none. |
| Rows.ParseRow | leetcoach.py:27-42 | Every line laid out as `<id> <slug> <whole>.<frac><rest>`, with an id of one to five digits, a slug, a rating with three or four integer digits and a remainder that does not start with a digit, holds no `.` and does not end in whitespace, yields its slug, the exact decimal of its rating and its id. |
| Ratings.Collect | leetcoach.py:25 | Every key maps to a record whose slug is that key and that was produced by some line. There are no more keys than lines. |
| Ratings.CollectConcat | leetcoach.py:42 | Folding two batches of lines equals folding each batch and letting the later batch overwrite. |
| Ratings.Parse | leetcoach.py:20-43 | The index has at most one entry per line. Every key is a slug token and equals its record's slug field. |
| Ratings.LastWriteWins | leetcoach.py:42 | If line i parses and no later line parses to the same slug, the index holds exactly line i's record under that slug. |
| Ratings.SkippedLine | leetcoach.py:29-36 | Inserting a line that yields no record (blank, no slug or no rating) anywhere leaves the index unchanged. |
| Ratings.KeysAreParsedSlugs | leetcoach.py:37-42 | A slug is a key of the index exactly when some line parses to it. |
| Bridges.Window | leetcoach.py:68 | `max(delta, 1)`: at least 1 and at least `delta`, and equal to one of them. |
| Bridges.Tokens | leetcoach.py:70-73 | `set(slug.split("-"))`, defined from `Text.Split`; its properties are stated by `TokensShape`. |
| Bridges.TokensShape | leetcoach.py:70-73 | A slug's token set is never empty and no token holds a dash. A slug without a dash is its own only token. |
| Bridges.Overlap | leetcoach.py:73-74 | `len(key & w)`, the size of the intersection of two token sets; its properties are stated by `OverlapBounds`. |
| Bridges.OverlapBounds | leetcoach.py:73-74 | The overlap is symmetric and at most the tokens of either slug. A slug shares all its tokens with itself. |
| Bridges.RankOf | leetcoach.py:72-74 | `score(v)`: the overlap with the target's tokens and the distance to the target's rating, with the gap kept un-negated; its properties are stated by `RankBounds`. |
| Bridges.RankBounds | leetcoach.py:72-74 | A record's overlap is at most the target's token count, and all of it for the target's own slug. Its gap is the distance between the two ratings, zero exactly at the target rating. |
| Bridges.PrefixLength | leetcoach.py:77 | `len(cands[:limit])`: `min(limit, n)` for a non-negative limit. A negative limit drops that many elements from the end, down to none. Never more than `n`. |
| Bridges.Insert | leetcoach.py:76 | Inserting into a list sorted by descending rank keeps it sorted and adds exactly that element. |
| Bridges.SortByRank | leetcoach.py:76 | The result is sorted by descending (overlap, -gap) and is a permutation of the input. |
| Bridges.Gather | leetcoach.py:68 | The candidates are index entries that are rated below the target within the window. Every such entry appears exactly once. |
| Bridges.PrefixOutranks | leetcoach.py:76-77 | Any candidate cut off by the limit ranks no higher than every kept one. |
| Bridges.Suggest | leetcoach.py:61-77 | An unknown slug fails with that slug, and a known slug succeeds. On success the target is the slug's rating. The list has `PrefixLength` of the number of entries passing the filter `Eligible` (leetcoach.py:68) elements. Each element comes from a distinct eligible index entry, and the target's own record is not among them. The list is sorted descending in the order `AtLeast` (more shared tokens, then a smaller gap; leetcoach.py:76). No eligible entry left out ranks above a returned one. |
| Scenarios.ReferenceExamples | leetcoach.py:14-17 | A problems URL normalizes to its slug, and a bare slug is left as is. |
| Scenarios.ProblemUrlExample | leetcoach.py:14-17 | `https://leetcode.com/problems/two-sum/description/` normalizes to `two-sum`. |
| Scenarios.PathSumBridges | leetcoach.py:61-77 | With three problems and window 200, exactly the one cheaper problem in the window is suggested for `minimum-path-sum`. |
| Scenarios.UnknownTarget | leetcoach.py:63-65 | A slug missing from the index fails with that slug. |
| Scenarios.TwoSumRow | leetcoach.py:20-43 | The line `1 two-sum 1496.0000 stuff` yields slug `two-sum`, rating 1496.0 and id 1. |
| Scenarios.PathSumRow | leetcoach.py:20-43 | The line `64 minimum-path-sum 1650.3333` yields slug `minimum-path-sum`, rating 1650.3333 and id 64. |
| Scenarios.IslandRow | leetcoach.py:20-43 | The line `827 making-a-large-island 2550.1` yields slug `making-a-large-island`, rating 2550.1 and id 827. |

## Left out

- Reading `ratings.txt` is not modelled: file I/O, UTF-8 decoding with undecodable bytes dropped, and splitting into lines. The parser takes the decoded lines as a sequence.
- `build_index` is not modelled beyond its call to `parse_ratings_txt` (leetcoach.py:46-51). The rest creates the output directory, writes the index as JSON and prints the number of entries. A missing ratings file raises from `open` (leetcoach.py:26) rather than exiting.
- `load_index` is not modelled (leetcoach.py:54-58). It reads the index back from JSON and exits with status 1 when the file is missing. `Suggest` takes the index as a value.
- `explain`, the `solve` command and the `gemini` subprocess calls are not modelled (leetcoach.py:80-101, 190-204). They only format prompts for an external program.
- `mcp_server` is not modelled (leetcoach.py:104-116). It reads `lookup <slug>` commands from standard input and prints `idx.get(slug, {})` as JSON, or an error object for any other line. It is a dictionary lookup on the loaded index, with no normalization and no call to `suggest`.
- `main` is not modelled (leetcoach.py:119-207). It parses arguments and dispatches: `build-index` calls `build_index` (leetcoach.py:151-152); `suggest` normalizes the slug and calls `suggest` (leetcoach.py:154-162); `explain` normalizes the slug and calls `explain` (leetcoach.py:164-166); `start` calls `suggest` with `delta` 150 and `limit` 3, then `explain`, then reads a choice from the terminal and prints the bridges or runs `gemini` (leetcoach.py:168-204); `mcp` runs `mcp_server` (leetcoach.py:206-207). The modelled parts are `normalize_slug` and `suggest`.
- `sys.exit(2)` and its message for an unknown slug are modelled as `Failure(UnknownSlug(slug))`.
- Ratings are exact decimals (`real`), not IEEE doubles. The window test `target - rating <= max(delta, 1)` and the gap `|target - rating|` are exact here. In Python, rounding can move a rating at the window's edge in or out, and two distinct decimal strings can become the same float.
- `\d` and `\w` are ASCII-only here. Python's `str` patterns also accept Unicode digits and letters. The strip set is Python's Unicode whitespace.
- Bridges.Suggest: the order among candidates whose overlap and gap are both equal is not fixed. Python keeps dictionary order for such ties, and that order comes from the JSON file. The model visits keys in an unspecified order and sorts stably.
- Bridges.Suggest: the clause "no eligible entry left out ranks above a returned one" is stated for records not returned. It says nothing about a second key holding a record identical to a returned one, which cannot happen in a parsed index because keys equal their records' slugs.
- The problem id is delimited by `\b` (leetcoach.py:40), so a digit run touching a letter, a digit or `_` is not an id. The model's `IdPattern` uses the same word boundary.
- `delta` and `limit` are any integers (leetcoach.py:61, 68, 77). A window below 1 is widened to 1, and a negative `limit` slices like Python's `cands[:limit]`.
