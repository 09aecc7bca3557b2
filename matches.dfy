/**
 * The match records the list view reads, the three-part opponent key that
 * names a test scenario, and the win tallies kept over results.
 */
module Matches {

  datatype Option<+T> = None | Some(value: T)

  /**
   * The stored result of a match. `Other` stands for any stored text other
   * than the four named results, so its `name` is never "Pending",
   * "Victory", "Defeat" or "Aborted".
   */
  datatype Outcome = Pending | Victory | Defeat | Aborted | Other(name: string)

  /**
   * One row of the match table, with the fields the list view uses. The
   * duration is in game time and may be missing; the store does not promise
   * that it is positive.
   */
  datatype Match = Match(
    id: int,
    group: int,
    race: string,
    difficulty: string,
    build: string,
    result: Outcome,
    duration: Option<int>)

  /** An opponent scenario: race, difficulty and build, kept as a triple. */
  datatype Opponent = Opponent(race: string, difficulty: string, build: string)

  function KeyOf(m: Match): Opponent
  {
    Opponent(m.race, m.difficulty, m.build)
  }

  /** A game counts towards a win rate only when it was won or lost. */
  predicate IsDecided(r: Outcome)
  {
    r.Victory? || r.Defeat?
  }

  /** Victories out of decided games. */
  datatype Tally = Tally(victories: nat, decided: nat)

  /**
   * Adds one result to a tally: decided games count, and of those the
   * victories. A tally never shrinks and grows by at most one game; a new
   * victory is always a new decided game, so a tally with no more victories
   * than decided games stays that way; a result that is not decided leaves
   * the tally as it was.
   */
  function Count(t: Tally, r: Outcome): (u: Tally)
    ensures t.decided <= u.decided <= t.decided + 1 && t.victories <= u.victories
    ensures u.victories - t.victories <= u.decided - t.decided
    ensures t.victories <= t.decided ==> u.victories <= u.decided
    ensures u == t <==> !IsDecided(r)
  {
    if IsDecided(r) then
      Tally(if r.Victory? then t.victories + 1 else t.victories, t.decided + 1)
    else t
  }

  /** A win rate cell: the text "-" when there are no decided games, else the counts behind the percentage. */
  datatype WinRate = Placeholder | Rate(victories: nat, decided: nat)

  function RateOf(t: Tally): (w: WinRate)
  {
    if t.decided > 0 then Rate(t.victories, t.decided) else Placeholder
  }

  /** The percentage a rate stands for, before it is formatted. */
  function Percent(w: WinRate): real
    requires w.Rate? && w.decided > 0
  {
    (w.victories as real / w.decided as real) * 100.0
  }

  /**
   * A win rate is the placeholder exactly when nothing was decided, and
   * otherwise a percentage between 0 and 100.
   */
  lemma RateSpec(t: Tally)
    requires t.victories <= t.decided
    ensures RateOf(t).Placeholder? <==> t.decided == 0
    ensures RateOf(t).Rate? ==> RateOf(t).victories == t.victories && RateOf(t).decided == t.decided
    ensures RateOf(t).Rate? ==> 0.0 <= Percent(RateOf(t)) <= 100.0
  {
    if t.decided > 0 {
      var v, d := t.victories as real, t.decided as real;
      assert v / d <= 1.0 by {
        assert v <= d;
      }
    }
  }

  /** The tally of every match with opponent key `k`, as the accumulation loop keeps it. */
  function ColumnTally(ms: seq<Match>, k: Opponent): (t: Tally)
    ensures t.victories <= t.decided <= |ms|
  {
    if ms == [] then Tally(0, 0)
    else
      var t := ColumnTally(ms[..|ms| - 1], k);
      var m := ms[|ms| - 1];
      if KeyOf(m) == k then Count(t, m.result) else t
  }

  /**
   * Only decided games count: a column has no decided games exactly when
   * none of its matches was won or lost, and no victories exactly when none
   * was won.
   */
  lemma {:induction false} ColumnTallyCounts(ms: seq<Match>, k: Opponent)
    ensures ColumnTally(ms, k).decided == 0 <==>
      forall i :: 0 <= i < |ms| && KeyOf(ms[i]) == k ==> !IsDecided(ms[i].result)
    ensures ColumnTally(ms, k).victories == 0 <==>
      forall i :: 0 <= i < |ms| && KeyOf(ms[i]) == k ==> !ms[i].result.Victory?
  {
    if ms != [] {
      var p := ms[..|ms| - 1];
      ColumnTallyCounts(p, k);
      assert forall i :: 0 <= i < |p| ==> p[i] == ms[i];
    }
  }
}
