/**
 * The batch pivot of the match list (test_lab/views.py, match_list): one row
 * per test group, newest first, with one cell per opponent column, the
 * Pending-to-Aborted relabelling of every group but the newest, and each
 * row's win tally and average duration.
 */
module Pivot {
  import opened Matches
  import opened Sorting
  import opened Catalogue

  /** One pivot row: its test group, one cell per column, its win rate and its average duration. */
  datatype Row = Row(group: int, results: seq<Option<Match>>, winRate: WinRate, avgDuration: Option<int>)

  /** The match as a row shows it: in any group but the newest, a Pending match shows as Aborted. */
  function Displayed(m: Match, latest: bool): (d: Match)
    ensures d.result.Pending? ==> latest
    ensures latest ==> d == m
    ensures d.(result := m.result) == m
    ensures d.result != m.result ==> m.result.Pending? && d.result == Aborted
    ensures IsDecided(d.result) <==> IsDecided(m.result)
  {
    if !latest && m.result.Pending? then m.(result := Aborted) else m
  }

  /** The cell of a row for column `o`: the group's match for `o` as displayed, or none. */
  function CellAt(cells: map<Opponent, Match>, o: Opponent, latest: bool): Option<Match>
  {
    if o in cells then Some(Displayed(cells[o], latest)) else None
  }

  /** The tally of a row's present cells. */
  function RowTally(cells: seq<Option<Match>>): (t: Tally)
    ensures t.victories <= t.decided <= |cells|
  {
    if cells == [] then Tally(0, 0)
    else
      var t := RowTally(cells[..|cells| - 1]);
      var c := cells[|cells| - 1];
      if c.Some? then Count(t, c.value.result) else t
  }

  /** A present cell whose match has a duration above zero. */
  predicate HasDuration(c: Option<Match>)
  {
    c.Some? && c.value.duration.Some? && c.value.duration.value > 0
  }

  function DurationOf(c: Option<Match>): nat
  {
    if HasDuration(c) then c.value.duration.value else 0
  }

  /** The sum of the positive durations of a row's cells. */
  function DurationTotal(cells: seq<Option<Match>>): nat
  {
    if cells == [] then 0 else DurationTotal(cells[..|cells| - 1]) + DurationOf(cells[|cells| - 1])
  }

  /** How many of a row's cells have a positive duration. */
  function DurationCount(cells: seq<Option<Match>>): nat
  {
    if cells == [] then 0
    else DurationCount(cells[..|cells| - 1]) + (if HasDuration(cells[|cells| - 1]) then 1 else 0)
  }

  /** The whole-number part of the mean positive duration, or none when no cell has one. */
  function MeanDuration(cells: seq<Option<Match>>): Option<int>
  {
    if DurationCount(cells) > 0 then Some(DurationTotal(cells) / DurationCount(cells)) else None
  }

  /** The row of a group: one displayed cell per column, and its tallies taken over those cells. */
  ghost predicate RowFor(row: Row, cells: map<Opponent, Match>, opponents: seq<Opponent>, latest: bool)
  {
    && |row.results| == |opponents|
    && (forall j :: 0 <= j < |opponents| ==> row.results[j] == CellAt(cells, opponents[j], latest))
    && row.winRate == RateOf(RowTally(row.results))
    && row.avgDuration == MeanDuration(row.results)
  }

  lemma RowGrow(cells: seq<Option<Match>>, c: Option<Match>)
    ensures RowTally(cells + [c]).victories ==
      RowTally(cells).victories + (if c.Some? && c.value.result.Victory? then 1 else 0)
    ensures RowTally(cells + [c]).decided ==
      RowTally(cells).decided + (if c.Some? && IsDecided(c.value.result) then 1 else 0)
    ensures DurationTotal(cells + [c]) == DurationTotal(cells) + DurationOf(c)
    ensures DurationCount(cells + [c]) == DurationCount(cells) + (if HasDuration(c) then 1 else 0)
  {
    assert (cells + [c])[..|cells|] == cells;
  }

  /** The first cells of a row, one per column so far. */
  ghost predicate ShownSoFar(results: seq<Option<Match>>, cells: map<Opponent, Match>, opponents: seq<Opponent>,
                             latest: bool)
  {
    && |results| <= |opponents|
    && forall j :: 0 <= j < |results| ==> results[j] == CellAt(cells, opponents[j], latest)
  }

  lemma ShownGrow(results: seq<Option<Match>>, cells: map<Opponent, Match>, opponents: seq<Opponent>,
                  latest: bool, cell: Option<Match>)
    requires ShownSoFar(results, cells, opponents, latest) && |results| < |opponents|
    requires cell == CellAt(cells, opponents[|results|], latest)
    ensures ShownSoFar(results + [cell], cells, opponents, latest)
  {
  }

  /** The running counters of the row loop over the cells so far. */
  ghost predicate Counted(results: seq<Option<Match>>, victories: int, decided: int,
                          totalDuration: int, withDuration: int)
  {
    && victories == RowTally(results).victories && decided == RowTally(results).decided
    && totalDuration == DurationTotal(results) && withDuration == DurationCount(results)
  }

  lemma CountedGrow(results: seq<Option<Match>>, victories: int, decided: int,
                    totalDuration: int, withDuration: int, cell: Option<Match>)
    requires Counted(results, victories, decided, totalDuration, withDuration)
    ensures Counted(results + [cell],
      victories + (if cell.Some? && cell.value.result.Victory? then 1 else 0),
      decided + (if cell.Some? && IsDecided(cell.value.result) then 1 else 0),
      totalDuration + DurationOf(cell),
      withDuration + (if HasDuration(cell) then 1 else 0))
  {
    RowGrow(results, cell);
  }

  /**
   * Lines 98-145 for one group: walk the columns, put None where the group
   * has no match and otherwise the match (relabelled Aborted if Pending in a
   * group that is not the newest), count won and lost games, and sum the
   * positive durations; then the win rate and the truncated mean duration.
   */
  method BuildRow(g: int, maxGroup: int, cells: map<Opponent, Match>, opponents: seq<Opponent>)
    returns (row: Row)
    ensures row.group == g
    ensures RowFor(row, cells, opponents, g == maxGroup)
  {
    var results: seq<Option<Match>> := [];
    var victories, decided := 0, 0;
    var totalDuration, withDuration := 0, 0;
    for j := 0 to |opponents|
      invariant |results| == j
      invariant ShownSoFar(results, cells, opponents, g == maxGroup)
      invariant Counted(results, victories, decided, totalDuration, withDuration)
    {
      var o := opponents[j];
      var cell: Option<Match> := None;
      if o in cells {
        var m := cells[o];
        if g != maxGroup && m.result.Pending? {
          m := m.(result := Aborted);
        }
        cell := Some(m);
      }
      ShownGrow(results, cells, opponents, g == maxGroup, cell);
      CountedGrow(results, victories, decided, totalDuration, withDuration, cell);
      results := results + [cell];
      if cell.Some? {
        var m := cell.value;
        if m.result.Victory? || m.result.Defeat? {
          decided := decided + 1;
          if m.result.Victory? {
            victories := victories + 1;
          }
        }
        // `HasDuration`: the cell has a duration, and it is above zero
        if HasDuration(cell) {
          totalDuration := totalDuration + m.duration.value;
          withDuration := withDuration + 1;
        }
      }
    }
    var winRate := if decided > 0 then Rate(victories, decided) else Placeholder;
    var avgDuration := if withDuration > 0 then Some(totalDuration / withDuration) else None;
    row := Row(g, results, winRate, avgDuration);
    RowDone(row, cells, opponents, g == maxGroup, victories, decided, totalDuration, withDuration);
  }

  lemma RowDone(row: Row, cells: map<Opponent, Match>, opponents: seq<Opponent>, latest: bool,
                victories: int, decided: int, totalDuration: int, withDuration: int)
    requires |row.results| == |opponents| && ShownSoFar(row.results, cells, opponents, latest)
    requires Counted(row.results, victories, decided, totalDuration, withDuration)
    requires row.winRate == if decided > 0 then Rate(victories, decided) else Placeholder
    requires row.avgDuration == if withDuration > 0 then Some(totalDuration / withDuration) else None
    ensures RowFor(row, cells, opponents, latest)
  {
  }

  function GroupIds(rows: seq<Row>): seq<int>
  {
    seq(|rows|, i requires 0 <= i < |rows| => rows[i].group)
  }

  /**
   * The pivot: one row per group, groups in strictly descending order, and
   * every row built by BuildRow; only the first row, the group with the
   * largest id, is the newest.
   */
  ghost predicate PivotFor(rows: seq<Row>, grouped: Grouped, opponents: seq<Opponent>)
  {
    && StrictlyDescending(GroupIds(rows))
    && (forall g :: g in GroupIds(rows) <==> g in grouped)
    && (forall i :: 0 <= i < |rows| ==> RowFor(rows[i], CellsOf(grouped, rows[i].group), opponents, i == 0))
  }

  /** Lines 91-145: sort the groups newest first, take the first as the newest, and build each row. */
  method BuildPivot(grouped: Grouped, opponents: seq<Opponent>) returns (rows: seq<Row>)
    ensures PivotFor(rows, grouped, opponents)
  {
    var sortedGroups := SortDescending(grouped.Keys);
    // the head of a strictly descending list is its largest group, the newest
    var maxGroup := if |sortedGroups| > 0 then sortedGroups[0] else -1;
    rows := [];
    for i := 0 to |sortedGroups|
      invariant |rows| == i
      invariant forall ii :: 0 <= ii < i ==> rows[ii].group == sortedGroups[ii]
      invariant forall ii :: 0 <= ii < i ==> RowFor(rows[ii], CellsOf(grouped, rows[ii].group), opponents, ii == 0)
    {
      var g := sortedGroups[i];
      var row := BuildRow(g, maxGroup, grouped[g], opponents);
      rows := rows + [row];
    }
    assert GroupIds(rows) == sortedGroups;
  }

  /**
   * Relabelling is invisible to the tallies: a row's tally and durations are
   * those of the same cells before relabelling, since Aborted, like Pending,
   * is neither won nor lost and the duration is not touched.
   */
  lemma {:induction false} RelabelKeepsTally(raw: seq<Option<Match>>, shown: seq<Option<Match>>, latest: bool)
    requires |raw| == |shown|
    requires forall j :: 0 <= j < |raw| ==> ShownAs(raw[j], shown[j], latest)
    ensures RowTally(shown) == RowTally(raw)
    ensures DurationTotal(shown) == DurationTotal(raw) && DurationCount(shown) == DurationCount(raw)
    ensures MeanDuration(shown) == MeanDuration(raw)
  {
    if raw != [] {
      var n := |raw| - 1;
      var p, q := raw[..n], shown[..n];
      assert forall j :: 0 <= j < n ==> p[j] == raw[j] && q[j] == shown[j];
      RelabelKeepsTally(p, q, latest);
      assert raw == p + [raw[n]] && shown == q + [shown[n]];
      RowGrow(p, raw[n]);
      RowGrow(q, shown[n]);
      RelabelCell(raw[n], shown[n], latest);
    }
  }

  /** Cell `d` shows cell `c` of a row: empty when it is, else its match as displayed. */
  predicate ShownAs(c: Option<Match>, d: Option<Match>, latest: bool)
  {
    d == if c.Some? then Some(Displayed(c.value, latest)) else None
  }

  /** A relabelled cell counts as its stored match does: same victory, decision and duration. */
  lemma RelabelCell(c: Option<Match>, d: Option<Match>, latest: bool)
    requires ShownAs(c, d, latest)
    ensures (d.Some? && d.value.result.Victory?) == (c.Some? && c.value.result.Victory?)
    ensures (d.Some? && IsDecided(d.value.result)) == (c.Some? && IsDecided(c.value.result))
    ensures HasDuration(d) == HasDuration(c) && DurationOf(d) == DurationOf(c)
  {
  }

  /** A row has no decided game exactly when none of its present cells was won or lost. */
  lemma {:induction false} RowTallyCounts(cells: seq<Option<Match>>)
    ensures RowTally(cells).decided == 0 <==>
      forall j :: 0 <= j < |cells| && cells[j].Some? ==> !IsDecided(cells[j].value.result)
  {
    if cells != [] {
      var p := cells[..|cells| - 1];
      RowTallyCounts(p);
      assert forall j :: 0 <= j < |p| ==> p[j] == cells[j];
    }
  }

  lemma {:induction false} DurationCountZero(cells: seq<Option<Match>>)
    ensures DurationCount(cells) == 0 <==> forall j :: 0 <= j < |cells| ==> !HasDuration(cells[j])
  {
    if cells != [] {
      var p := cells[..|cells| - 1];
      DurationCountZero(p);
      assert forall j :: 0 <= j < |p| ==> p[j] == cells[j];
    }
  }

  lemma {:induction false} DurationTotalBounds(cells: seq<Option<Match>>, lo: int, hi: int)
    requires forall j :: 0 <= j < |cells| && HasDuration(cells[j]) ==> lo <= DurationOf(cells[j]) <= hi
    ensures DurationCount(cells) * lo <= DurationTotal(cells) <= DurationCount(cells) * hi
  {
    if cells != [] {
      var n := |cells| - 1;
      var p, x := cells[..n], cells[n];
      assert cells == p + [x];
      RowGrow(p, x);
      assert forall j :: 0 <= j < |p| ==> p[j] == cells[j];
      DurationTotalBounds(p, lo, hi);
      var c := DurationCount(p);
      if HasDuration(x) {
        MultiplySucc(c, lo);
        MultiplySucc(c, hi);
      }
    }
  }

  lemma MultiplySucc(c: nat, x: int)
    ensures (c + 1) * x == c * x + x
  {
  }

  /** `lo <= total / count <= hi` when `count * lo <= total <= count * hi`. */
  lemma DivisionBounds(total: nat, count: nat, lo: int, hi: int)
    requires count > 0 && count * lo <= total <= count * hi
    ensures lo <= total / count <= hi
  {
    var q, r := total / count, total % count;
    assert total == count * q + r && 0 <= r < count;
    assert count * (q + 1) == count * q + count;
    MultiplyCancel(count, lo, q + 1);
    MultiplyCancel(count, q, hi + 1);
    assert count * (hi + 1) == count * hi + count;
  }

  lemma MultiplyCancel(c: nat, a: int, b: int)
    requires c > 0 && c * a < c * b
    ensures a < b
  {
    assert c * (b - a) == c * b - c * a;
  }

  /**
   * The average duration is absent exactly when no present cell has a
   * positive duration; otherwise it lies between the shortest and the
   * longest positive duration of the row, whatever the cells' results.
   */
  lemma MeanDurationSpec(cells: seq<Option<Match>>, lo: int, hi: int)
    requires forall j :: 0 <= j < |cells| && HasDuration(cells[j]) ==> lo <= DurationOf(cells[j]) <= hi
    ensures MeanDuration(cells).None? <==> forall j :: 0 <= j < |cells| ==> !HasDuration(cells[j])
    ensures MeanDuration(cells).Some? ==> lo <= MeanDuration(cells).value <= hi
  {
    DurationCountZero(cells);
    DurationTotalBounds(cells, lo, hi);
    if DurationCount(cells) > 0 {
      DivisionBounds(DurationTotal(cells), DurationCount(cells), lo, hi);
    }
  }
}
