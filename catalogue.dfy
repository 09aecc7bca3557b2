/**
 * The first pass of the match list (test_lab/views.py, match_list): one loop
 * over the fetched matches that files each match under its test group and
 * opponent key, tallies results per opponent, and collects the builds seen
 * for every difficulty and race; then the pass that sorts and de-duplicates
 * each build list.
 */
module Catalogue {
  import opened Matches
  import opened Sorting

  /** Test group -> opponent key -> match; a later match for the same pair replaces an earlier one. */
  type Grouped = map<int, map<Opponent, Match>>

  /** Difficulty -> race -> builds. */
  type BuildLists = map<string, map<string, seq<string>>>

  /** The accumulators the first loop fills. `difficulties` lists the keys of `builds` in insertion order. */
  datatype Accumulators = Accumulators(
    grouped: Grouped,
    opponents: set<Opponent>,
    stats: map<Opponent, Tally>,
    difficulties: seq<string>,
    builds: BuildLists)

  /** The cells of one group; a group never seen has none. */
  function CellsOf(grouped: Grouped, g: int): map<Opponent, Match>
  {
    if g in grouped then grouped[g] else map[]
  }

  /** The tally of an opponent key; a key never tallied reads as no games, as a `defaultdict` does. */
  function StatOf(stats: map<Opponent, Tally>, k: Opponent): Tally
  {
    if k in stats then stats[k] else Tally(0, 0)
  }

  /** The grouping the loop builds from the matches seen so far. */
  function GroupedOf(ms: seq<Match>): Grouped
  {
    if ms == [] then map[]
    else
      var grouped := GroupedOf(ms[..|ms| - 1]);
      var m := ms[|ms| - 1];
      grouped[m.group := CellsOf(grouped, m.group)[KeyOf(m) := m]]
  }

  function OpponentsOf(ms: seq<Match>): set<Opponent>
  {
    set m | m in ms :: KeyOf(m)
  }

  /** The difficulties of the matches, each once, in the order they first occur. */
  function FirstSeen(ms: seq<Match>): seq<string>
  {
    if ms == [] then []
    else
      var ds := FirstSeen(ms[..|ms| - 1]);
      var d := ms[|ms| - 1].difficulty;
      if d in ds then ds else ds + [d]
  }

  /** The builds of the matches against race `r` at difficulty `d`, with repeats, in input order. */
  function BuildsOf(ms: seq<Match>, d: string, r: string): seq<string>
  {
    if ms == [] then []
    else
      var bs := BuildsOf(ms[..|ms| - 1], d, r);
      var m := ms[|ms| - 1];
      if m.difficulty == d && m.race == r then bs + [m.build] else bs
  }

  predicate Distinct(s: seq<string>)
  {
    forall i, j :: 0 <= i < j < |s| ==> s[i] != s[j]
  }

  /** Match `i` is the last one of test group `g` against opponent `k`. */
  predicate LastAt(ms: seq<Match>, i: int, g: int, k: Opponent)
  {
    && 0 <= i < |ms|
    && ms[i].group == g && KeyOf(ms[i]) == k
    && forall j :: i < j < |ms| ==> !(ms[j].group == g && KeyOf(ms[j]) == k)
  }

  /**
   * A group is present exactly when some match has it; a (group, opponent)
   * cell is present exactly when some match has both, and then it holds the
   * last such match in input order.
   */
  lemma {:induction false} GroupedCell(ms: seq<Match>, g: int, k: Opponent)
    ensures g in GroupedOf(ms) <==> exists m :: m in ms && m.group == g
    ensures k in CellsOf(GroupedOf(ms), g) <==> exists m :: m in ms && m.group == g && KeyOf(m) == k
    ensures k in CellsOf(GroupedOf(ms), g) ==>
      exists i :: LastAt(ms, i, g, k) && CellsOf(GroupedOf(ms), g)[k] == ms[i]
  {
    if ms != [] {
      var p := ms[..|ms| - 1];
      var m := ms[|ms| - 1];
      assert ms == p + [m];
      GroupedCell(p, g, k);
      if m.group == g && KeyOf(m) == k {
        assert LastAt(ms, |ms| - 1, g, k);
      } else if k in CellsOf(GroupedOf(p), g) {
        var i :| LastAt(p, i, g, k) && CellsOf(GroupedOf(p), g)[k] == p[i];
        assert LastAt(ms, i, g, k);
      }
    }
  }

  lemma {:induction false} FirstSeenSpec(ms: seq<Match>)
    ensures Distinct(FirstSeen(ms))
    ensures forall d :: d in FirstSeen(ms) <==> exists m :: m in ms && m.difficulty == d
  {
    if ms != [] {
      var p := ms[..|ms| - 1];
      assert ms == p + [ms[|ms| - 1]];
      FirstSeenSpec(p);
    }
  }

  /** Some match of difficulty `a` comes before every match of difficulty `b`. */
  ghost predicate Before(ms: seq<Match>, a: string, b: string)
  {
    exists k :: 0 <= k < |ms| && ms[k].difficulty == a && forall j :: 0 <= j <= k ==> ms[j].difficulty != b
  }

  /**
   * The difficulties are listed in the order they first occur: of two listed
   * difficulties, the earlier one occurs before any match of the later one.
   */
  lemma {:induction false} FirstSeenOrder(ms: seq<Match>)
    ensures forall i, j :: 0 <= i < j < |FirstSeen(ms)| ==> Before(ms, FirstSeen(ms)[i], FirstSeen(ms)[j])
  {
    if ms != [] {
      var p := ms[..|ms| - 1];
      var m := ms[|ms| - 1];
      assert ms == p + [m];
      FirstSeenOrder(p);
      FirstSeenSpec(p);
      var ds := FirstSeen(p);
      forall i, j | 0 <= i < j < |FirstSeen(ms)|
        ensures Before(ms, FirstSeen(ms)[i], FirstSeen(ms)[j])
      {
        if j < |ds| {
          BeforeExtends(p, m, ds[i], ds[j]);
        } else {
          FirstBeforeNew(p, m, ds[i]);
        }
      }
    }
  }

  lemma BeforeExtends(p: seq<Match>, m: Match, a: string, b: string)
    requires Before(p, a, b)
    ensures Before(p + [m], a, b)
  {
    var k :| 0 <= k < |p| && p[k].difficulty == a && forall j :: 0 <= j <= k ==> p[j].difficulty != b;
    assert forall j :: 0 <= j <= k ==> (p + [m])[j] == p[j];
  }

  lemma FirstBeforeNew(p: seq<Match>, m: Match, a: string)
    requires a in FirstSeen(p) && m.difficulty !in FirstSeen(p)
    ensures Before(p + [m], a, m.difficulty)
  {
    FirstSeenSpec(p);
    var n :| n in p && n.difficulty == a;
    var k :| 0 <= k < |p| && p[k] == n;
    forall j | 0 <= j <= k
      ensures (p + [m])[j].difficulty != m.difficulty
    {
      assert (p + [m])[j] == p[j] && p[j] in p;
    }
    assert (p + [m])[k].difficulty == a;
  }

  /** A build is listed under (difficulty, race) exactly when some match has that opponent key. */
  lemma {:induction false} BuildsOfSpec(ms: seq<Match>, d: string, r: string)
    ensures forall b :: b in BuildsOf(ms, d, r) <==> Opponent(r, d, b) in OpponentsOf(ms)
  {
    if ms != [] {
      var p := ms[..|ms| - 1];
      assert ms == p + [ms[|ms| - 1]];
      BuildsOfSpec(p, d, r);
      assert OpponentsOf(ms) == OpponentsOf(p) + {KeyOf(ms[|ms| - 1])};
    }
  }

  /** The build lists and their insertion order after the matches `ms`. */
  ghost predicate BuildsFilled(builds: BuildLists, difficulties: seq<string>, ms: seq<Match>)
  {
    && difficulties == FirstSeen(ms)
    && (forall d :: d in builds <==> d in difficulties)
    && (forall d, r :: BuildsOf(ms, d, r) != [] ==> d in builds)
    && (forall d, r :: d in builds ==> (r in builds[d] <==> BuildsOf(ms, d, r) != []))
    && (forall d, r :: d in builds && r in builds[d] ==> builds[d][r] == BuildsOf(ms, d, r))
  }

  /** What the first loop has filled after the matches `ms`. */
  ghost predicate Filled(acc: Accumulators, ms: seq<Match>)
  {
    && acc.grouped == GroupedOf(ms)
    && acc.opponents == OpponentsOf(ms)
    && (forall k :: StatOf(acc.stats, k) == ColumnTally(ms, k))
    && BuildsFilled(acc.builds, acc.difficulties, ms)
  }

  lemma BuildsOfGrow(ms: seq<Match>, m: Match, d: string, r: string)
    ensures BuildsOf(ms + [m], d, r) ==
      if m.difficulty == d && m.race == r then BuildsOf(ms, d, r) + [m.build] else BuildsOf(ms, d, r)
  {
    assert (ms + [m])[..|ms|] == ms;
  }

  lemma FirstSeenGrow(ms: seq<Match>, m: Match)
    ensures FirstSeen(ms + [m]) ==
      if m.difficulty in FirstSeen(ms) then FirstSeen(ms) else FirstSeen(ms) + [m.difficulty]
  {
    assert (ms + [m])[..|ms|] == ms;
  }

  /** Appending one build keeps the build lists and their key order in step with the matches. */
  lemma BuildsGrow(builds: BuildLists, difficulties: seq<string>, ms: seq<Match>, m: Match,
                   builds': BuildLists, difficulties': seq<string>)
    requires BuildsFilled(builds, difficulties, ms)
    requires var races := if m.difficulty in builds then builds[m.difficulty] else map[];
             var list := if m.race in races then races[m.race] else [];
             builds' == builds[m.difficulty := races[m.race := list + [m.build]]]
    requires difficulties' == if m.difficulty in builds then difficulties else difficulties + [m.difficulty]
    ensures BuildsFilled(builds', difficulties', ms + [m])
  {
    var next := ms + [m];
    FirstSeenGrow(ms, m);
    forall d, r | BuildsOf(next, d, r) != []
      ensures d in builds'
    {
      BuildsOfGrow(ms, m, d, r);
    }
    forall d, r | d in builds'
      ensures r in builds'[d] <==> BuildsOf(next, d, r) != []
    {
      BuildsOfGrow(ms, m, d, r);
    }
    forall d, r | d in builds' && r in builds'[d]
      ensures builds'[d][r] == BuildsOf(next, d, r)
    {
      BuildsOfGrow(ms, m, d, r);
    }
  }

  /** One more match adds one result to the tally of its own key and to no other. */
  lemma StatsGrow(stats: map<Opponent, Tally>, ms: seq<Match>, m: Match, stats': map<Opponent, Tally>)
    requires forall k :: StatOf(stats, k) == ColumnTally(ms, k)
    requires stats' == if IsDecided(m.result) then stats[KeyOf(m) := Count(StatOf(stats, KeyOf(m)), m.result)] else stats
    ensures forall k :: StatOf(stats', k) == ColumnTally(ms + [m], k)
  {
    var next := ms + [m];
    assert next[..|next| - 1] == ms;
  }

  /** How filing match `m` changes the accumulators. */
  ghost predicate FiledOnce(acc: Accumulators, m: Match, acc': Accumulators)
  {
    var races := if m.difficulty in acc.builds then acc.builds[m.difficulty] else map[];
    var list := if m.race in races then races[m.race] else [];
    && acc'.opponents == acc.opponents + {KeyOf(m)}
    && acc'.grouped == acc.grouped[m.group := CellsOf(acc.grouped, m.group)[KeyOf(m) := m]]
    && acc'.stats == (if IsDecided(m.result)
         then acc.stats[KeyOf(m) := Count(StatOf(acc.stats, KeyOf(m)), m.result)] else acc.stats)
    && acc'.builds == acc.builds[m.difficulty := races[m.race := list + [m.build]]]
    && acc'.difficulties ==
         if m.difficulty in acc.builds then acc.difficulties else acc.difficulties + [m.difficulty]
  }

  /** Filing match `i` keeps every accumulator in step with the matches seen. */
  lemma FilledGrow(acc: Accumulators, ms: seq<Match>, i: nat, acc': Accumulators)
    requires i < |ms| && Filled(acc, ms[..i]) && FiledOnce(acc, ms[i], acc')
    ensures Filled(acc', ms[..i + 1])
  {
    var seen, m := ms[..i], ms[i];
    var next := ms[..i + 1];
    assert next == seen + [m];
    assert next[..|next| - 1] == seen;
    assert OpponentsOf(next) == OpponentsOf(seen) + {KeyOf(m)};
    StatsGrow(acc.stats, seen, m, acc'.stats);
    BuildsGrow(acc.builds, acc.difficulties, seen, m, acc'.builds, acc'.difficulties);
  }

  /**
   * The body of the first loop: record the match's opponent key, file the
   * match under its group (replacing an earlier match of the same group and
   * key), count a won or lost game for its key, and append its build to the
   * list for its difficulty and race.
   */
  method File(acc: Accumulators, m: Match) returns (acc': Accumulators)
    ensures FiledOnce(acc, m, acc')
  {
    var key := KeyOf(m);
    var opponents := acc.opponents + {key};
    var grouped := acc.grouped[m.group := CellsOf(acc.grouped, m.group)[key := m]];
    var stats := acc.stats;
    if m.result.Victory? || m.result.Defeat? {
      var t := StatOf(stats, key);
      t := t.(decided := t.decided + 1);
      if m.result.Victory? {
        t := t.(victories := t.victories + 1);
      }
      stats := stats[key := t];
    }
    var races := if m.difficulty in acc.builds then acc.builds[m.difficulty] else map[];
    var list := if m.race in races then races[m.race] else [];
    var difficulties := acc.difficulties;
    if m.difficulty !in acc.builds {
      difficulties := difficulties + [m.difficulty];
    }
    var builds := acc.builds[m.difficulty := races[m.race := list + [m.build]]];
    acc' := Accumulators(grouped, opponents, stats, difficulties, builds);
  }

  /** The first loop: every fetched match filed in turn. */
  method Accumulate(ms: seq<Match>) returns (acc: Accumulators)
    ensures Filled(acc, ms)
  {
    acc := Accumulators(map[], {}, map[], [], map[]);
    for i := 0 to |ms|
      invariant Filled(acc, ms[..i])
    {
      var next := File(acc, ms[i]);
      FilledGrow(acc, ms, i, next);
      acc := next;
    }
    assert ms[..|ms|] == ms;
  }

  /** Every build list is replaced by its distinct builds in ascending order; the keys stay. */
  ghost predicate SortedFrom(sorted: BuildLists, raw: BuildLists)
  {
    && sorted.Keys == raw.Keys
    && (forall d :: d in raw ==> SortedRaces(sorted[d], raw[d]))
  }

  /** The second loop: `sorted(set(builds))` for every difficulty and race. */
  method SortBuilds(raw: BuildLists) returns (builds: BuildLists)
    ensures SortedFrom(builds, raw)
  {
    builds := raw;
    var todo := raw.Keys;
    while |todo| > 0
      invariant todo <= raw.Keys && builds.Keys == raw.Keys
      invariant forall d :: d in todo ==> builds[d] == raw[d]
      invariant forall d :: d in raw && d !in todo ==> SortedRaces(builds[d], raw[d])
      decreases |todo|
    {
      var d := Pick(todo);
      var races := SortRaces(builds[d]);
      builds := builds[d := races];
      todo := todo - {d};
    }
  }

  /** The build lists of one difficulty, each replaced by its distinct builds in ascending order. */
  ghost predicate SortedRaces(sorted: map<string, seq<string>>, raw: map<string, seq<string>>)
  {
    && sorted.Keys == raw.Keys
    && (forall r :: r in raw ==> StrictlySorted(sorted[r]))
    && (forall r, b :: r in raw ==> (b in sorted[r] <==> b in raw[r]))
  }

  /** The inner loop of the second pass, over the races of one difficulty. */
  method SortRaces(raw: map<string, seq<string>>) returns (races: map<string, seq<string>>)
    ensures SortedRaces(races, raw)
  {
    races := raw;
    var pending := raw.Keys;
    while |pending| > 0
      invariant pending <= raw.Keys && races.Keys == raw.Keys
      invariant forall r :: r in pending ==> races[r] == raw[r]
      invariant forall r :: r in raw && r !in pending ==> StrictlySorted(races[r])
      invariant forall r, b :: r in raw && r !in pending ==> (b in races[r] <==> b in raw[r])
      decreases |pending|
    {
      var r := Pick(pending);
      var unique := set b | b in races[r];
      var sortedBuilds := SortStrings(unique);
      races := races[r := sortedBuilds];
      pending := pending - {r};
    }
  }
}
