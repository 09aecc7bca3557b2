# Match list pivot of the SC2 bot test lab

This project models `match_list` in `test_lab/views.py`, the page of the
test lab that shows bot test matches. The matches are fetched from the
match store. Matches with test group -1 are dropped, and when a difficulty
is chosen in the dropdown, only matches of that difficulty are kept. The
view then turns the matches into a pivot table:

* **Catalogue.** One pass over the matches does four things. It files
  each match under its test group and its opponent key; the key is the
  opponent's race, difficulty and build, and a later match replaces an
  earlier one in the same cell. It counts victories and decided games
  (Victory or Defeat) per opponent. It collects the builds seen for each
  difficulty and race. It notes which difficulties occur, in order of first
  appearance. A second pass sorts each build list and removes duplicates.
* **Header and columns.** Difficulties go in the order of the dropdown
  list. A difficulty missing from that list gets sort key 999, comes after
  all known ones, and keeps its first-appearance order among the other
  unknown ones. Python's `sorted` is stable: that is what keeps this order.
  Races go in string order. Each difficulty becomes a header entry with its
  race entries. A race entry spans its builds, and a difficulty entry spans
  the sum of its races. The leaves of the header, read left to right, are
  the opponent columns.
* **Pivot by test group.** There is one row per test group, newest first.
  Each row has one cell per column. A cell is empty, or holds the last
  match of that group against that opponent. In every group except the
  newest, a Pending match is shown as Aborted. Each row gets a win rate
  over its decided cells, and an average duration. The average is the
  whole-number part of the mean of the durations above zero.
* **Column win rates.** Each column gets a win rate over every listed
  match against that opponent. A column with no decided game shows "-".

The model is imperative where the view is. The accumulation pass, the
build-sorting pass, the header loop, the pivot loops and the column-rate
loop are methods with loops and loop invariants. Each method is proved
against specification functions (`GroupedOf`, `ColumnTally`, `FirstSeen`,
`BuildsOf`, `Columns`, `RowTally`, `MeanDuration`), and lemmas about those
functions carry the promised properties. `MatchList.MatchListView` chains
the steps. Its postcondition, `ViewOf`, states the whole view in terms of
the fetched matches alone:

* the header's difficulties are ordered and complete;
* every race and build appears exactly as played;
* the spans add up;
* each opponent played is a column exactly once, in difficulty, race and
  build order;
* every row and every win rate is as described above.

Modules:

* `Sorting`: the orderings used and Python's `sorted`.
* `Matches`: the match record, the opponent key and the win tallies.
* `Catalogue`: the first two passes.
* `Header`: the sort keys, the header tree and the columns.
* `Pivot`: the rows.
* `MatchList`: fetching and the view as a whole.

Modelling choices:

* A percentage is kept as its pair of counts (`Rate(victories,
  decided)`). `Matches.Percent` gives the real number it stands for.
* The opponent key is a triple, not a `-`-joined string.
* Results are an enumeration, with `Other` for any other stored text.
* Durations are optional integers in game time.

## Model

| member | source | states |
|---|---|---|
| Sorting.SortStrings | test_lab/views.py:59 | `sorted(set(...))` of string keys: the result is strictly ascending in code-point order and holds exactly the given keys |
| Sorting.SortedUnique | test_lab/views.py:59 | two strictly ascending sequences with the same members are equal, so the sorted list of a set of keys is unique |
| Sorting.SortDescending | test_lab/views.py:92 | `sorted(keys, reverse=True)` on group ids: strictly descending, holding exactly the given ids |
| Sorting.SortByKeySpec | test_lab/views.py:64 | the stable sort by key is ordered by key, is a permutation of its input, and keeps the input order among elements of equal key |
| Sorting.LessTotal | test_lab/views.py:59 | string order is total on distinct strings (with LessIrreflexive and LessTransitive it is a strict total order) |
| Matches.Count | test_lab/views.py:48-51 | adding a result never shrinks a tally and adds at most one decided game; a new victory is always a new decided game, so victories never overtake decided games; a result that is not Victory or Defeat leaves the tally unchanged |
| Matches.RateSpec | test_lab/views.py:149-155 | a win rate is "-" exactly when no game was decided; otherwise it carries the counts, and its percentage lies in [0, 100] |
| Matches.ColumnTally | test_lab/views.py:41-51 | an opponent's victories never exceed its decided games, which never exceed the number of matches |
| Matches.ColumnTallyCounts | test_lab/views.py:48-51 | an opponent has no decided game exactly when none of its matches is a Victory or Defeat, and no victory exactly when none is a Victory |
| Catalogue.GroupedCell | test_lab/views.py:47 | a group is filed exactly when some match has it; a (group, opponent) cell exists exactly when some match has both, and holds the last such match in fetch order |
| Catalogue.FirstSeenSpec | test_lab/views.py:54 | the difficulty keys of `difficulty_groups` are without repeats and are exactly the difficulties played |
| Catalogue.FirstSeenOrder | test_lab/views.py:54 | the difficulty keys are in order of first appearance: of two keys, some match of the earlier one comes before every match of the later one |
| Catalogue.BuildsOfSpec | test_lab/views.py:54 | the builds collected under a difficulty and race are exactly those of the opponents played with that difficulty and race |
| Catalogue.File | test_lab/views.py:44-54 | one step of the first loop: files the match, adds its key, counts its result and appends its build, creating the difficulty and race entries on first use |
| Catalogue.Accumulate | test_lab/views.py:43-54 | after the loop, the accumulators are exactly the grouping, key set, per-opponent tallies and build lists of all fetched matches |
| Catalogue.SortRaces | test_lab/views.py:58-59 | for one difficulty, every race's build list becomes strictly ascending with the same members, over the same races |
| Catalogue.SortBuilds | test_lab/views.py:57-59 | every difficulty's races get sorted, de-duplicated build lists; no difficulty is added or lost |
| Header.Find | test_lab/views.py:64 | `list.index`: a position holding the element, with no earlier occurrence |
| Header.RankSpec | test_lab/views.py:13-16 | a known difficulty ranks at its place in the dropdown order; an unknown one ranks 999, after every known one |
| Header.SortByRankSpec | test_lab/views.py:64 | the difficulties sorted by rank are ordered by rank, are a permutation of the first-seen order, and keep that order among equal ranks |
| Header.AddRaces | test_lab/views.py:72-83 | one race header per race, naming it, spanning its builds and listing them; the columns grow by that race's opponents, build by build |
| Header.BuildHeader | test_lab/views.py:67-89 | one header entry per sorted difficulty, with its races sorted and its span the sum of its race spans; the columns are the header's leaves |
| Header.SpanIsBuildCount | test_lab/views.py:70 | the difficulty span (the sum over races of their build counts) equals the sum of the race header spans |
| Header.ColumnsCount | test_lab/views.py:70-89 | when every span counts its leaves, the number of columns equals the sum of the difficulty spans |
| Header.ColumnsMember | test_lab/views.py:73-77 | an opponent is a column exactly when its difficulty has a header entry whose race entry lists its build |
| Header.ColumnsOrdered | test_lab/views.py:68-77 | a header built from distinct ordered difficulties with sorted races and builds yields columns in difficulty, race, build order |
| Header.ColumnOrderDistinct | test_lab/views.py:75-77 | columns in strict column order have no repeats |
| Pivot.Displayed | test_lab/views.py:112-113 | the shown match differs from the stored one at most in its result, which changes only from Pending to Aborted; only the newest group can show Pending, and it shows the match unchanged; whether it is decided does not change |
| Pivot.RowTally | test_lab/views.py:121-124 | a row's victories never exceed its decided games, which never exceed its number of cells |
| Pivot.BuildRow | test_lab/views.py:97-143 | one cell per column, empty or the group's match for that opponent (relabelled outside the newest group); win rate and average over those cells |
| Pivot.BuildPivot | test_lab/views.py:91-145 | rows in strictly descending group order, one per group filed, the first treated as the newest (`max_group_id`) |
| Pivot.RelabelKeepsTally | test_lab/views.py:112-129 | relabelling Pending to Aborted changes neither a row's tally nor its durations nor its average |
| Pivot.RowTallyCounts | test_lab/views.py:121-124 | a row has no decided game exactly when none of its present cells is a Victory or Defeat |
| Pivot.DurationCountZero | test_lab/views.py:127-129 | no duration is counted exactly when no present cell has a duration above zero |
| Pivot.DurationTotalBounds | test_lab/views.py:127-129 | when each counted duration lies in [lo, hi], the total lies between count·lo and count·hi |
| Pivot.MeanDurationSpec | test_lab/views.py:139-143 | the average is absent exactly when no cell has a positive duration; otherwise it lies within the range of the counted durations |
| MatchList.Fetch | test_lab/views.py:25-32 | the fetched matches are exactly the stored ones outside group -1 and, when a difficulty is chosen, of that difficulty |
| MatchList.FetchConcat | test_lab/views.py:25-32 | fetching keeps the input order: fetching a concatenation is the concatenation of the fetches |
| MatchList.ColumnRates | test_lab/views.py:148-155 | one win rate per column, taken from that opponent's tally |
| MatchList.MatchListView | test_lab/views.py:25-155 | the whole view: header, columns, pivot rows and column rates are as the view's specification states them over the fetched matches |
| MatchList.SortedDifficultiesSpec | test_lab/views.py:64 | the sorted difficulties are ordered by rank, without repeats, exactly those played, and in first-seen order among equal ranks |
| MatchList.HeaderSpecHolds | test_lab/views.py:57-89 | the header built from the accumulated and sorted catalogue meets the header specification over the fetched matches |
| MatchList.ColumnsSpecHolds | test_lab/views.py:44-45 | the columns are exactly the opponents played, each once, in column order, as many as the total span |
| MatchList.ColumnPlayed | test_lab/views.py:44-45 | an opponent is a column exactly when some fetched match is against it |
| MatchList.PivotSpecHolds | test_lab/views.py:92-115 | rows are in strictly descending group order, one per group present, and the first row has the largest group of any fetched match |
| MatchList.RowSpecHolds | test_lab/views.py:106-143 | a cell is empty exactly when the group has no match against that column, else shows the last such match; no cell outside the newest group is Pending |
| MatchList.SelectionSpec | test_lab/views.py:31-32 | with a chosen difficulty, the header and every column are of that difficulty; no row is test group -1 |
| MatchList.LastMatchWins | test_lab/views.py:47 | a victory (300) then a defeat (200) in group 1 against one opponent leave the group-1 row showing only the defeat (0 of 1, average 200) |

## Left out

- The match store query, its `exclude`/`filter` calls, the request
  parameter and the debug prints (test_lab/views.py:19-33). The query has
  no `order_by`, so the database chooses the row order. The model takes
  whatever order the query returns as its input order: the order of the
  `stored` sequence. Two results depend on that order: which match a
  cell keeps (line 47), and the order of difficulties that tie on their
  sort key (line 64). The request's `difficulty` parameter is an
  argument, and `""` stands for "none chosen". `MatchList.Fetch` keeps the
  filter's meaning.
- `render` and the template (test_lab/views.py:157-163): the view's result
  is the `View` value.
- `trigger_tests` (test_lab/views.py:165 onward): it starts a PowerShell
  process and redirects, all operating-system and framework glue.
- The routes in `test_lab/urls.py`. The views they name other than
  `match_list` are not part of this model.
- Float arithmetic and the `:.1f%` text of the percentages (lines 133-134,
  152-153). A win rate is its exact pair of counts, and `Matches.Percent`
  is the exact real number, not the rounded float.
- Float durations. A duration is an integer, so the average is exact
  whole-number division. Over positive durations this is the same as
  Python's `int(total / count)`, up to float rounding.
- Opponent names are built by joining with `-` (line 44). A `-` inside a
  race, difficulty or build could make two opponents share a name; the
  triple key cannot.
- Line 113 writes `Aborted` into the fetched match object itself. The model
  puts a relabelled copy into the row. Within the view nothing else reads
  that object afterwards, since each cell is visited once; the change is
  never saved to the store.
- `all_opponents` (lines 37, 45) is built but never read. The model keeps
  the set (`Accumulators.opponents`), and it appears in no result.
- Python's default-dictionary creation on first access is written out as
  "the entry or its empty value" (`CellsOf`, `StatOf`).
- Last write wins per (group, opponent) cell (line 47). An earlier match in
  the same cell still counts toward its column's win rate (lines 48-51)
  but not toward its row. `MatchList.LastMatchWins` shows this on a
  victory of 300 followed by a defeat of 200 in one group against one
  opponent. The group's row shows only the defeat: no victory out of one
  decided game, and an average of 200.
- A relabelled match is never decided, but its positive duration still
  counts toward its row's average (lines 127-129).
- `match_list` computes no per-race or per-difficulty rates and no per-map
  view, so the model has none either.
