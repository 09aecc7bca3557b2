/**
 * The match list view as a whole (test_lab/views.py, match_list): fetch the
 * matches, run the accumulation pass, sort the builds and the difficulties,
 * build the header and the column order, pivot by test group, and compute
 * the win rate of every column.
 */
module MatchList {
  import opened Matches
  import opened Sorting
  import opened Catalogue
  import opened Header
  import opened Pivot

  /**
   * The matches the view lists, in the order the query returns them (taken
   * as the order of `stored`): every stored match outside
   * test group -1 and, when a difficulty is selected, only those of that
   * difficulty. An empty selection means no filter.
   */
  function Fetch(stored: seq<Match>, selected: string): (ms: seq<Match>)
    ensures forall m :: m in ms <==> m in stored && m.group != -1 && (selected == "" || m.difficulty == selected)
    ensures |ms| <= |stored|
  {
    if stored == [] then []
    else
      var m := stored[|stored| - 1];
      var rest := Fetch(stored[..|stored| - 1], selected);
      assert stored == stored[..|stored| - 1] + [m];
      if m.group != -1 && (selected == "" || m.difficulty == selected) then rest + [m] else rest
  }

  /** Fetching keeps the input order: the matches of two stretches of the input, one after the other. */
  lemma {:induction false} FetchConcat(a: seq<Match>, b: seq<Match>, selected: string)
    ensures Fetch(a + b, selected) == Fetch(a, selected) + Fetch(b, selected)
  {
    if b == [] {
      assert a + b == a;
    } else {
      var p := b[..|b| - 1];
      assert (a + b)[..|a + b| - 1] == a + p;
      FetchConcat(a, p, selected);
    }
  }

  /** What the view hands to the template. */
  datatype View = View(
    pivot: seq<Row>,
    opponents: seq<Opponent>,
    header: seq<DifficultyHeader>,
    selectedDifficulty: string,
    winRates: seq<WinRate>)

  /** Lines 148-155: the win rate of each column, from the tallies of the first pass. */
  method ColumnRates(stats: map<Opponent, Tally>, opponents: seq<Opponent>) returns (rates: seq<WinRate>)
    ensures |rates| == |opponents|
    ensures forall j :: 0 <= j < |opponents| ==> rates[j] == RateOf(StatOf(stats, opponents[j]))
  {
    rates := [];
    for j := 0 to |opponents|
      invariant |rates| == j
      invariant forall jj :: 0 <= jj < j ==> rates[jj] == RateOf(StatOf(stats, opponents[jj]))
    {
      var t := StatOf(stats, opponents[j]);
      if t.decided > 0 {
        rates := rates + [Rate(t.victories, t.decided)];
      } else {
        rates := rates + [Placeholder];
      }
    }
  }

  function Difficulties(h: seq<DifficultyHeader>): seq<string>
  {
    seq(|h|, i requires 0 <= i < |h| => h[i].difficulty)
  }

  /**
   * One difficulty of the header: its races are those played at that
   * difficulty, ascending and each once; each race's builds are those played
   * against it there, ascending and each once.
   */
  ghost predicate RacesFor(h: DifficultyHeader, ms: seq<Match>)
  {
    && StrictlySorted(Names(h.races))
    && (forall r :: r in Names(h.races) <==> exists m :: m in ms && m.difficulty == h.difficulty && m.race == r)
    && (forall j :: 0 <= j < |h.races| ==> StrictlySorted(h.races[j].builds))
    && (forall j, b :: 0 <= j < |h.races| ==>
          (b in h.races[j].builds <==> Opponent(h.races[j].name, h.difficulty, b) in OpponentsOf(ms)))
  }

  /**
   * The header: the difficulties played, each once, ordered by the dropdown
   * order with unknown ones last in order of first appearance; the races and
   * builds under each; and spans that count the leaf columns beneath them.
   */
  ghost predicate HeaderSpec(header: seq<DifficultyHeader>, ms: seq<Match>)
  {
    var ds := Difficulties(header);
    && KeySorted(ds, Rank)
    && Distinct(ds)
    && (forall d :: d in ds <==> exists m :: m in ms && m.difficulty == d)
    && (forall k :: OfKey(ds, Rank, k) == OfKey(FirstSeen(ms), Rank, k))
    && WellSpanned(header)
    && (forall i :: 0 <= i < |header| ==> RacesFor(header[i], ms))
  }

  /** The columns: the header's leaves left to right, exactly the opponents played, in column order. */
  ghost predicate ColumnsSpec(opponents: seq<Opponent>, header: seq<DifficultyHeader>, ms: seq<Match>)
  {
    && opponents == Columns(header)
    && (forall o :: o in opponents <==> o in OpponentsOf(ms))
    && InColumnOrder(Difficulties(header), opponents)
    && (forall i, j :: 0 <= i < j < |opponents| ==> opponents[i] != opponents[j])
    && |opponents| == TotalSpan(header)
  }

  /**
   * One pivot row: a cell is empty exactly when the group has no match
   * against that column's opponent, and otherwise shows the last such match
   * in input order; outside the newest group no cell shows Pending; the win
   * rate and the average duration are taken over the cells shown.
   */
  ghost predicate RowSpec(row: Row, opponents: seq<Opponent>, ms: seq<Match>, latest: bool)
  {
    && |row.results| == |opponents|
    && (forall j :: 0 <= j < |opponents| ==>
          (row.results[j].None? <==> !exists m :: m in ms && m.group == row.group && KeyOf(m) == opponents[j]))
    && (forall j :: 0 <= j < |opponents| && row.results[j].Some? ==>
          exists k :: LastAt(ms, k, row.group, opponents[j]) && row.results[j].value == Displayed(ms[k], latest))
    && (forall j :: 0 <= j < |opponents| && row.results[j].Some? && !latest ==>
          !row.results[j].value.result.Pending?)
    && row.winRate == RateOf(RowTally(row.results))
    && row.avgDuration == MeanDuration(row.results)
  }

  /** The pivot: one row per group played, newest (largest id) first, and each row as RowSpec says. */
  ghost predicate PivotSpec(pivot: seq<Row>, opponents: seq<Opponent>, ms: seq<Match>)
  {
    && StrictlyDescending(GroupIds(pivot))
    && (forall g :: g in GroupIds(pivot) <==> exists m :: m in ms && m.group == g)
    && (pivot != [] ==> forall m :: m in ms ==> m.group <= pivot[0].group)
    && (forall i :: 0 <= i < |pivot| ==> RowSpec(pivot[i], opponents, ms, i == 0))
  }

  /** The column win rates: one per column, over every listed match against that opponent. */
  ghost predicate RatesSpec(rates: seq<WinRate>, opponents: seq<Opponent>, ms: seq<Match>)
  {
    && |rates| == |opponents|
    && (forall j :: 0 <= j < |opponents| ==> rates[j] == RateOf(ColumnTally(ms, opponents[j])))
  }

  /** Everything the view shows, for the listed matches `ms` and the selection `selected`. */
  ghost predicate ViewOf(view: View, ms: seq<Match>, selected: string)
  {
    && HeaderSpec(view.header, ms)
    && ColumnsSpec(view.opponents, view.header, ms)
    && PivotSpec(view.pivot, view.opponents, ms)
    && RatesSpec(view.winRates, view.opponents, ms)
    && view.selectedDifficulty == selected
  }

  /** The match list view: lines 25-155 of test_lab/views.py, without the rendering. */
  method MatchListView(stored: seq<Match>, selected: string) returns (view: View)
    ensures ViewOf(view, Fetch(stored, selected), selected)
  {
    var ms := Fetch(stored, selected);
    var acc := Accumulate(ms);
    var builds := SortBuilds(acc.builds);
    var sortedDifficulties := SortByRank(acc.difficulties);
    SortedDifficultiesSpec(acc, ms, sortedDifficulties);
    var header, opponents := BuildHeader(sortedDifficulties, builds);
    var pivot := BuildPivot(acc.grouped, opponents);
    var rates := ColumnRates(acc.stats, opponents);
    view := View(pivot, opponents, header, selected, rates);
    HeaderSpecHolds(acc, ms, builds, sortedDifficulties, header);
    ColumnsSpecHolds(ms, header, opponents);
    PivotSpecHolds(ms, opponents, pivot);
  }

  /** Every sequence of the same keys as a duplicate-free one is duplicate-free. */
  lemma DistinctPermutation(s: seq<string>, t: seq<string>)
    requires multiset(s) == multiset(t) && Distinct(t)
    ensures Distinct(s)
  {
    forall i, j | 0 <= i < j < |s|
      ensures s[i] != s[j]
    {
      assert s == s[..j] + s[j..];
      assert s[i] in s[..j] && s[j] in s[j..];
      DistinctOnce(t, s[j]);
    }
  }

  lemma {:induction false} DistinctOnce(t: seq<string>, x: string)
    requires Distinct(t)
    ensures multiset(t)[x] <= 1
  {
    if t != [] {
      var p := t[..|t| - 1];
      assert t == p + [t[|t| - 1]];
      assert Distinct(p);
      DistinctOnce(p, x);
      assert t[|t| - 1] !in p;
    }
  }

  /** The sorted difficulties are those played, each once, and each has build lists. */
  lemma SortedDifficultiesSpec(acc: Accumulators, ms: seq<Match>, ds: seq<string>)
    requires Filled(acc, ms) && ds == SortByRank(acc.difficulties)
    ensures KeySorted(ds, Rank) && Distinct(ds)
    ensures forall d :: d in ds <==> exists m :: m in ms && m.difficulty == d
    ensures forall k :: OfKey(ds, Rank, k) == OfKey(FirstSeen(ms), Rank, k)
    ensures forall d :: d in ds ==> d in acc.builds
  {
    SortByRankSpec(acc.difficulties);
    FirstSeenSpec(ms);
    DistinctPermutation(ds, acc.difficulties);
    assert forall d :: d in ds <==> d in acc.difficulties by {
      forall d
        ensures d in ds <==> d in acc.difficulties
      {
        assert d in ds <==> d in multiset(ds);
        assert d in acc.difficulties <==> d in multiset(acc.difficulties);
      }
    }
  }

  /** A race is listed under a difficulty exactly when some match has both. */
  lemma RacePlayed(ms: seq<Match>, d: string, r: string)
    ensures BuildsOf(ms, d, r) != [] <==> exists m :: m in ms && m.difficulty == d && m.race == r
  {
    BuildsOfSpec(ms, d, r);
    if BuildsOf(ms, d, r) != [] {
      assert Opponent(r, d, BuildsOf(ms, d, r)[0]) in OpponentsOf(ms);
    }
    if exists m :: m in ms && m.difficulty == d && m.race == r {
      var m :| m in ms && m.difficulty == d && m.race == r;
      assert Opponent(r, d, m.build) == KeyOf(m);
    }
  }

  lemma RacesForHolds(acc: Accumulators, ms: seq<Match>, builds: BuildLists, d: string, h: DifficultyHeader)
    requires Filled(acc, ms) && SortedFrom(builds, acc.builds)
    requires d in acc.builds && HeaderFor(h, d, builds[d])
    ensures RacesFor(h, ms)
  {
    forall r
      ensures r in Names(h.races) <==> exists m :: m in ms && m.difficulty == d && m.race == r
    {
      RacePlayed(ms, d, r);
    }
    forall j, b | 0 <= j < |h.races|
      ensures b in h.races[j].builds <==> Opponent(h.races[j].name, d, b) in OpponentsOf(ms)
    {
      assert h.races[j].name in Names(h.races);
      BuildsOfSpec(ms, d, h.races[j].name);
    }
  }

  lemma HeaderSpecHolds(acc: Accumulators, ms: seq<Match>, builds: BuildLists, ds: seq<string>,
                        header: seq<DifficultyHeader>)
    requires Filled(acc, ms) && SortedFrom(builds, acc.builds)
    requires ds == SortByRank(acc.difficulties)
    requires |header| == |ds|
    requires forall d :: d in ds ==> d in builds
    requires forall i :: 0 <= i < |header| ==> HeaderFor(header[i], ds[i], builds[ds[i]])
    ensures Difficulties(header) == ds
    ensures HeaderSpec(header, ms)
  {
    SortedDifficultiesSpec(acc, ms, ds);
    assert Difficulties(header) == ds;
    forall i | 0 <= i < |header|
      ensures RacesFor(header[i], ms)
    {
      RacesForHolds(acc, ms, builds, ds[i], header[i]);
    }
  }

  lemma ColumnsSpecHolds(ms: seq<Match>, header: seq<DifficultyHeader>, opponents: seq<Opponent>)
    requires HeaderSpec(header, ms) && opponents == Columns(header)
    ensures ColumnsSpec(opponents, header, ms)
  {
    ColumnsCount(header);
    ColumnsOrdered(Difficulties(header), header);
    ColumnOrderDistinct(Difficulties(header), opponents);
    forall o
      ensures o in opponents <==> o in OpponentsOf(ms)
    {
      ColumnPlayed(ms, header, o);
    }
  }

  /** A column is in the header exactly when some listed match is against that opponent. */
  lemma ColumnPlayed(ms: seq<Match>, header: seq<DifficultyHeader>, o: Opponent)
    requires HeaderSpec(header, ms)
    ensures o in Columns(header) <==> o in OpponentsOf(ms)
  {
    ColumnsMember(header, o);
    if o in OpponentsOf(ms) {
      var m :| m in ms && KeyOf(m) == o;
      assert o.difficulty in Difficulties(header);
      var i :| 0 <= i < |header| && Difficulties(header)[i] == o.difficulty;
      var h := header[i];
      assert RacesFor(h, ms);
      assert o.race in Names(h.races);
      var j :| 0 <= j < |h.races| && Names(h.races)[j] == o.race;
      assert Opponent(h.races[j].name, h.difficulty, o.build) == o;
      assert InRaces(h.races, o);
    }
  }

  lemma PivotSpecHolds(ms: seq<Match>, opponents: seq<Opponent>, pivot: seq<Row>)
    requires PivotFor(pivot, GroupedOf(ms), opponents)
    ensures PivotSpec(pivot, opponents, ms)
  {
    forall g
      ensures g in GroupIds(pivot) <==> exists m :: m in ms && m.group == g
    {
      GroupedCell(ms, g, Opponent("", "", ""));
    }
    if pivot != [] {
      forall m | m in ms
        ensures m.group <= pivot[0].group
      {
        GroupedCell(ms, m.group, KeyOf(m));
        var i :| 0 <= i < |pivot| && GroupIds(pivot)[i] == m.group;
        assert i == 0 || GroupIds(pivot)[0] > GroupIds(pivot)[i];
      }
    }
    forall i | 0 <= i < |pivot|
      ensures RowSpec(pivot[i], opponents, ms, i == 0)
    {
      RowSpecHolds(ms, opponents, pivot[i], i == 0);
    }
  }

  lemma RowSpecHolds(ms: seq<Match>, opponents: seq<Opponent>, row: Row, latest: bool)
    requires RowFor(row, CellsOf(GroupedOf(ms), row.group), opponents, latest)
    ensures RowSpec(row, opponents, ms, latest)
  {
    forall j | 0 <= j < |opponents|
      ensures row.results[j].None? <==> !exists m :: m in ms && m.group == row.group && KeyOf(m) == opponents[j]
      ensures row.results[j].Some? ==>
        exists k :: LastAt(ms, k, row.group, opponents[j]) && row.results[j].value == Displayed(ms[k], latest)
    {
      GroupedCell(ms, row.group, opponents[j]);
    }
  }

  /**
   * A selected difficulty narrows everything to it: with a selection, every
   * header difficulty and every column is of that difficulty; no row is of
   * the excluded test group -1.
   */
  lemma SelectionSpec(view: View, stored: seq<Match>, selected: string)
    requires ViewOf(view, Fetch(stored, selected), selected)
    ensures selected != "" ==> forall i :: 0 <= i < |view.header| ==> view.header[i].difficulty == selected
    ensures selected != "" ==> forall o :: o in view.opponents ==> o.difficulty == selected
    ensures forall i :: 0 <= i < |view.pivot| ==> view.pivot[i].group != -1
  {
    var ms := Fetch(stored, selected);
    HeaderSelected(view.header, ms, stored, selected);
    ColumnsSelected(view.opponents, view.header, ms, stored, selected);
    GroupsListed(view.pivot, ms, stored, selected);
  }

  lemma HeaderSelected(header: seq<DifficultyHeader>, ms: seq<Match>, stored: seq<Match>, selected: string)
    requires ms == Fetch(stored, selected)
    requires forall d :: d in Difficulties(header) ==> exists m :: m in ms && m.difficulty == d
    ensures selected != "" ==> forall i :: 0 <= i < |header| ==> header[i].difficulty == selected
  {
    forall i | 0 <= i < |header|
      ensures selected != "" ==> header[i].difficulty == selected
    {
      assert Difficulties(header)[i] == header[i].difficulty;
      assert header[i].difficulty in Difficulties(header);
      var m :| m in ms && m.difficulty == header[i].difficulty;
    }
  }

  lemma ColumnsSelected(opponents: seq<Opponent>, header: seq<DifficultyHeader>, ms: seq<Match>,
                        stored: seq<Match>, selected: string)
    requires ms == Fetch(stored, selected) && ColumnsSpec(opponents, header, ms)
    ensures selected != "" ==> forall o :: o in opponents ==> o.difficulty == selected
  {
    forall o | o in opponents
      ensures exists m :: m in ms && KeyOf(m) == o
    {
      assert o in OpponentsOf(ms);
    }
  }

  lemma GroupsListed(pivot: seq<Row>, ms: seq<Match>, stored: seq<Match>, selected: string)
    requires ms == Fetch(stored, selected)
    requires forall g :: g in GroupIds(pivot) ==> exists m :: m in ms && m.group == g
    ensures forall i :: 0 <= i < |pivot| ==> pivot[i].group != -1
  {
    forall i | 0 <= i < |pivot|
      ensures pivot[i].group != -1
    {
      assert GroupIds(pivot)[i] == pivot[i].group;
      assert pivot[i].group in GroupIds(pivot);
      var m :| m in ms && m.group == pivot[i].group;
    }
  }

  /**
   * Two matches of one group against the same opponent share a cell, and
   * the later one wins: with a victory of 300 and then a defeat of 200 in
   * group 1 and a pending match in group 2, the group-1 row shows the defeat
   * alone (no victories out of one decided game, average 200), and the
   * group-2 row, the newest, keeps its Pending match and has no decided game.
   */
  lemma LastMatchWins(view: View)
    requires ViewOf(view, Fetch(ExampleStore(), ""), "")
    ensures |view.opponents| == 1 && |view.pivot| == 2
    ensures view.pivot[1].group == 1 && view.pivot[1].results == [Some(ExampleStore()[1])]
    ensures view.pivot[1].winRate == Rate(0, 1) && view.pivot[1].avgDuration == Some(200)
    ensures view.pivot[0].group == 2 && view.pivot[0].results == [Some(ExampleStore()[2])]
    ensures view.pivot[0].winRate == Placeholder && view.pivot[0].avgDuration == None
  {
    var ms := ExampleStore();
    ExampleFetched();
    ExampleColumn(view.opponents, ms);
    ExampleGroups(GroupIds(view.pivot), ms);
    assert GroupIds(view.pivot)[1] == view.pivot[1].group;
    assert GroupIds(view.pivot)[0] == view.pivot[0].group;
    assert RowSpec(view.pivot[1], view.opponents, ms, false);
    assert RowSpec(view.pivot[0], view.opponents, ms, true);
    ExampleOlderRow(view.pivot[1], view.opponents, ms);
    ExampleNewestRow(view.pivot[0], view.opponents, ms);
  }

  /** The stored matches of the example: two in group 1 and one in group 2, all against one opponent. */
  function ExampleStore(): seq<Match>
  {
    [ Match(1, 1, "Terran", "Easy", "Rush", Victory, Some(300)),
      Match(2, 1, "Terran", "Easy", "Rush", Defeat, Some(200)),
      Match(3, 2, "Terran", "Easy", "Rush", Pending, None) ]
  }

  function ExampleOpponent(): Opponent
  {
    Opponent("Terran", "Easy", "Rush")
  }

  lemma ExampleFetched()
    ensures Fetch(ExampleStore(), "") == ExampleStore()
  {
    var s := ExampleStore();
    assert s[..2][..1] == s[..1] && s[..1][..0] == [];
    assert s[..2] == s[..1] + [s[1]] && s == s[..2] + [s[2]];
  }

  lemma ExampleKeys(ms: seq<Match>)
    requires ms == ExampleStore()
    ensures forall m :: m in ms ==> KeyOf(m) == ExampleOpponent() && (m.group == 1 || m.group == 2)
    ensures ms[1].group == 1 && ms[2].group == 2
    ensures OpponentsOf(ms) == {ExampleOpponent()}
  {
    assert KeyOf(ms[0]) == ExampleOpponent();
  }

  lemma ExampleColumn(opponents: seq<Opponent>, ms: seq<Match>)
    requires ms == ExampleStore()
    requires forall x :: x in opponents <==> x in OpponentsOf(ms)
    requires forall i, j :: 0 <= i < j < |opponents| ==> opponents[i] != opponents[j]
    ensures opponents == [ExampleOpponent()]
  {
    ExampleKeys(ms);
    assert forall i :: 0 <= i < |opponents| ==> opponents[i] in opponents;
    assert ExampleOpponent() in opponents;
    AtMostOne(opponents, ExampleOpponent());
  }

  lemma ExampleGroups(gs: seq<int>, ms: seq<Match>)
    requires ms == ExampleStore()
    requires StrictlyDescending(gs)
    requires forall g :: g in gs <==> exists m :: m in ms && m.group == g
    ensures gs == [2, 1]
  {
    ExampleKeys(ms);
    assert 1 in gs by { assert ms[1] in ms; }
    assert 2 in gs by { assert ms[2] in ms; }
    assert forall i :: 0 <= i < |gs| ==> gs[i] in gs;
    assert forall i :: 0 <= i < |gs| ==> gs[i] == 1 || gs[i] == 2;
    OneAndTwo(gs);
  }

  /** A sequence without repeats whose every element is x has at most one element. */
  lemma AtMostOne<T>(s: seq<T>, x: T)
    requires forall i :: 0 <= i < |s| ==> s[i] == x
    requires forall i, j :: 0 <= i < j < |s| ==> s[i] != s[j]
    ensures |s| <= 1
  {
    if |s| > 1 {
      FirstTwo(s);
      assert false;
    }
  }

  lemma FirstTwo<T>(s: seq<T>)
    requires |s| > 1
    ensures s[0] == s[..2][0] && s[1] == s[..2][1]
  {
  }

  /** The only strictly descending sequence of 1s and 2s holding both is [2, 1]. */
  lemma OneAndTwo(gs: seq<int>)
    requires StrictlyDescending(gs)
    requires forall i :: 0 <= i < |gs| ==> gs[i] == 1 || gs[i] == 2
    requires 1 in gs && 2 in gs
    ensures gs == [2, 1]
  {
    Spread(gs, |gs| - 1);
    assert |gs| == 2;
  }

  /** Each step down a strictly descending sequence of integers loses at least one. */
  lemma {:induction false} Spread(gs: seq<int>, k: int)
    requires StrictlyDescending(gs) && 0 <= k < |gs|
    ensures gs[0] - gs[k] >= k
    decreases k
  {
    if k > 0 {
      Spread(gs, k - 1);
    }
  }

  lemma ExampleLast(ms: seq<Match>, k: int, g: int)
    requires ms == ExampleStore() && (g == 1 || g == 2)
    requires LastAt(ms, k, g, ExampleOpponent())
    ensures k == g
  {
    ExampleKeys(ms);
    assert KeyOf(ms[1]) == ExampleOpponent() && KeyOf(ms[2]) == ExampleOpponent();
  }

  lemma ExampleOlderRow(row: Row, opponents: seq<Opponent>, ms: seq<Match>)
    requires ms == ExampleStore() && opponents == [ExampleOpponent()]
    requires row.group == 1 && RowSpec(row, opponents, ms, false)
    ensures row.results == [Some(ms[1])]
    ensures row.winRate == Rate(0, 1) && row.avgDuration == Some(200)
  {
    ExampleKeys(ms);
    assert ms[1] in ms;
    assert row.results[0].Some?;
    var k :| LastAt(ms, k, 1, ExampleOpponent()) && row.results[0].value == Displayed(ms[k], false);
    ExampleLast(ms, k, 1);
    assert row.results == [Some(ms[1])];
    assert row.results[..0] == [];
    assert RowTally(row.results) == Count(Tally(0, 0), Defeat);
    assert DurationTotal(row.results) == 200 && DurationCount(row.results) == 1;
  }

  lemma ExampleNewestRow(row: Row, opponents: seq<Opponent>, ms: seq<Match>)
    requires ms == ExampleStore() && opponents == [ExampleOpponent()]
    requires row.group == 2 && RowSpec(row, opponents, ms, true)
    ensures row.results == [Some(ms[2])]
    ensures row.winRate == Placeholder && row.avgDuration == None
  {
    ExampleKeys(ms);
    assert ms[2] in ms;
    assert row.results[0].Some?;
    var k :| LastAt(ms, k, 2, ExampleOpponent()) && row.results[0].value == Displayed(ms[k], true);
    ExampleLast(ms, k, 2);
    assert row.results == [Some(ms[2])];
    assert row.results[..0] == [];
    assert RowTally(row.results) == Count(Tally(0, 0), Pending);
    assert DurationCount(row.results) == 0;
  }
}
