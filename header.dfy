/**
 * Column order and the header tree of the match list (test_lab/views.py,
 * match_list): difficulties ordered by the fixed list of the filter dropdown,
 * races and builds in string order, and a header whose spans merge the cells
 * above the leaf columns.
 */
module Header {
  import opened Matches
  import opened Sorting
  import opened Catalogue

  /** The difficulties in the order of the filter dropdown. */
  const DifficultyOrder: seq<string> := [
    "Easy", "Medium", "MediumHard", "Hard", "Harder", "VeryHard",
    "CheatVision", "CheatMoney", "CheatInsane"
  ]

  /** The sort key of a difficulty that is not in DifficultyOrder. */
  const UnknownRank: nat := 999

  /** Python's `list.index`: the position of the first occurrence. */
  function Find(s: seq<string>, x: string): (k: nat)
    requires x in s
    ensures k < |s| && s[k] == x
    ensures forall j :: 0 <= j < k ==> s[j] != x
  {
    if s[0] == x then 0 else 1 + Find(s[1..], x)
  }

  lemma FindDistinct(s: seq<string>, i: int)
    requires Distinct(s) && 0 <= i < |s|
    ensures Find(s, s[i]) == i
  {
  }

  /** The sort key of a difficulty: its place in DifficultyOrder, or UnknownRank. */
  function Rank(d: string): nat
  {
    if d in DifficultyOrder then Find(DifficultyOrder, d) else UnknownRank
  }

  /**
   * A known difficulty ranks by its place in the dropdown order, and an
   * unknown one ranks after every known one.
   */
  lemma RankSpec(d: string)
    ensures forall i :: 0 <= i < |DifficultyOrder| ==> Rank(DifficultyOrder[i]) == i
    ensures d !in DifficultyOrder ==> Rank(d) == UnknownRank
    ensures d !in DifficultyOrder ==> forall k :: k in DifficultyOrder ==> Rank(k) < Rank(d)
  {
    assert Distinct(DifficultyOrder);
    forall i | 0 <= i < |DifficultyOrder|
      ensures Rank(DifficultyOrder[i]) == i
    {
      FindDistinct(DifficultyOrder, i);
    }
  }

  /** Python's stable `sorted` with Rank as key (line 64). */
  function SortByRank(ds: seq<string>): seq<string>
  {
    SortByKey(ds, Rank)
  }

  /**
   * The sorted difficulties are in rank order, are the same difficulties, and
   * keep the input order among equal ranks.
   */
  lemma SortByRankSpec(ds: seq<string>)
    ensures KeySorted(SortByRank(ds), Rank)
    ensures multiset(SortByRank(ds)) == multiset(ds)
    ensures forall k :: OfKey(SortByRank(ds), Rank, k) == OfKey(ds, Rank, k)
  {
    SortByKeySpec(ds, Rank);
  }

  /** One race under a difficulty: its name, its column span and its builds. */
  datatype RaceHeader = RaceHeader(name: string, span: nat, builds: seq<string>)

  /** One difficulty: its name, its column span and its races. */
  datatype DifficultyHeader = DifficultyHeader(difficulty: string, span: nat, races: seq<RaceHeader>)

  function Names(rs: seq<RaceHeader>): seq<string>
  {
    seq(|rs|, j requires 0 <= j < |rs| => rs[j].name)
  }

  /** The `sum` of line 70: how many builds the given races have. */
  function BuildCount(races: map<string, seq<string>>, names: seq<string>): nat
    requires forall r :: r in names ==> r in races
  {
    if names == [] then 0
    else BuildCount(races, names[..|names| - 1]) + |races[names[|names| - 1]]|
  }

  function SpanSum(rs: seq<RaceHeader>): nat
  {
    if rs == [] then 0 else SpanSum(rs[..|rs| - 1]) + rs[|rs| - 1].span
  }

  function TotalSpan(h: seq<DifficultyHeader>): nat
  {
    if h == [] then 0 else TotalSpan(h[..|h| - 1]) + h[|h| - 1].span
  }

  /** The leaf columns under one race. */
  function BuildColumns(d: string, r: RaceHeader): seq<Opponent>
  {
    seq(|r.builds|, k requires 0 <= k < |r.builds| => Opponent(r.name, d, r.builds[k]))
  }

  /** The leaf columns under one difficulty, race by race. */
  function RaceColumns(d: string, rs: seq<RaceHeader>): seq<Opponent>
  {
    if rs == [] then [] else RaceColumns(d, rs[..|rs| - 1]) + BuildColumns(d, rs[|rs| - 1])
  }

  /** All leaf columns of a header, left to right. */
  function Columns(h: seq<DifficultyHeader>): seq<Opponent>
  {
    if h == [] then [] else Columns(h[..|h| - 1]) + RaceColumns(h[|h| - 1].difficulty, h[|h| - 1].races)
  }

  /**
   * The header entry of difficulty `d` over its races: races in ascending
   * order, each once; each race with its build list and a span equal to the
   * number of its builds; the difficulty's span the sum of its race spans.
   */
  ghost predicate HeaderFor(h: DifficultyHeader, d: string, races: map<string, seq<string>>)
  {
    && h.difficulty == d
    && StrictlySorted(Names(h.races))
    && (forall r :: r in Names(h.races) <==> r in races)
    && (forall j :: 0 <= j < |h.races| ==>
          h.races[j].name in races && h.races[j].builds == races[h.races[j].name]
          && h.races[j].span == |h.races[j].builds|)
    && h.span == SpanSum(h.races)
  }

  lemma {:induction false} SpanIsBuildCount(races: map<string, seq<string>>, rs: seq<RaceHeader>)
    requires forall j :: 0 <= j < |rs| ==>
      rs[j].name in races && rs[j].span == |races[rs[j].name]|
    ensures forall r :: r in Names(rs) ==> r in races
    ensures SpanSum(rs) == BuildCount(races, Names(rs))
  {
    if rs != [] {
      var p := rs[..|rs| - 1];
      SpanIsBuildCount(races, p);
      assert Names(rs)[..|rs| - 1] == Names(p);
    }
  }

  /**
   * Lines 72-83 for one difficulty `d`: one entry per race in the given
   * order, with its builds and their count as span, and one opponent column
   * per build appended to `opponents`.
   */
  method AddRaces(d: string, races: map<string, seq<string>>, names: seq<string>, opponents: seq<Opponent>)
    returns (raceHeaders: seq<RaceHeader>, opponents': seq<Opponent>)
    requires forall r :: r in names ==> r in races
    ensures |raceHeaders| == |names|
    ensures forall j :: 0 <= j < |names| ==>
      raceHeaders[j] == RaceHeader(names[j], |races[names[j]]|, races[names[j]])
    ensures opponents' == opponents + RaceColumns(d, raceHeaders)
  {
    raceHeaders, opponents' := [], opponents;
    for j := 0 to |names|
      invariant |raceHeaders| == j
      invariant forall jj :: 0 <= jj < j ==>
        raceHeaders[jj] == RaceHeader(names[jj], |races[names[jj]]|, races[names[jj]])
      invariant opponents' == opponents + RaceColumns(d, raceHeaders)
    {
      var r := names[j];
      var bs := races[r];
      ghost var mid := opponents';
      for k := 0 to |bs|
        invariant opponents' == mid + BuildColumns(d, RaceHeader(r, k, bs[..k]))
      {
        opponents' := opponents' + [Opponent(r, d, bs[k])];
      }
      assert bs[..|bs|] == bs;
      raceHeaders := raceHeaders + [RaceHeader(r, |bs|, bs)];
      assert raceHeaders[..j] == raceHeaders[..|raceHeaders| - 1];
    }
  }

  /** The entry a difficulty gets from its sorted race names and their build lists. */
  lemma HeaderEntry(d: string, races: map<string, seq<string>>, names: seq<string>,
                    raceHeaders: seq<RaceHeader>, span: nat)
    requires StrictlySorted(names) && forall r :: r in names <==> r in races
    requires |raceHeaders| == |names|
    requires forall j :: 0 <= j < |names| ==>
      raceHeaders[j] == RaceHeader(names[j], |races[names[j]]|, races[names[j]])
    requires span == BuildCount(races, names)
    ensures HeaderFor(DifficultyHeader(d, span, raceHeaders), d, races)
  {
    assert Names(raceHeaders) == names;
    SpanIsBuildCount(races, raceHeaders);
  }

  lemma ColumnsAppend(h: seq<DifficultyHeader>, e: DifficultyHeader)
    ensures Columns(h + [e]) == Columns(h) + RaceColumns(e.difficulty, e.races)
  {
    assert (h + [e])[..|h|] == h;
  }

  lemma HeadersGrow(difficulties: seq<string>, builds: BuildLists, header: seq<DifficultyHeader>,
                    entry: DifficultyHeader)
    requires |header| < |difficulties|
    requires forall d :: d in difficulties ==> d in builds
    requires forall ii :: 0 <= ii < |header| ==> HeaderFor(header[ii], difficulties[ii], builds[difficulties[ii]])
    requires HeaderFor(entry, difficulties[|header|], builds[difficulties[|header|]])
    ensures forall ii :: 0 <= ii < |header| + 1 ==>
      HeaderFor((header + [entry])[ii], difficulties[ii], builds[difficulties[ii]])
  {
  }

  /**
   * Lines 67-89: for each difficulty in order, its races sorted, the sum of
   * their build counts as its span, one race entry per race with its builds,
   * and one opponent column per build appended to the column order.
   */
  method BuildHeader(difficulties: seq<string>, builds: BuildLists)
    returns (header: seq<DifficultyHeader>, opponents: seq<Opponent>)
    requires forall d :: d in difficulties ==> d in builds
    ensures |header| == |difficulties|
    ensures forall i :: 0 <= i < |header| ==> HeaderFor(header[i], difficulties[i], builds[difficulties[i]])
    ensures opponents == Columns(header)
  {
    header, opponents := [], [];
    for i := 0 to |difficulties|
      invariant |header| == i
      invariant forall ii :: 0 <= ii < i ==> HeaderFor(header[ii], difficulties[ii], builds[difficulties[ii]])
      invariant opponents == Columns(header)
    {
      var d := difficulties[i];
      var races := SortStrings(builds[d].Keys);
      var span := BuildCount(builds[d], races);
      var raceHeaders;
      raceHeaders, opponents := AddRaces(d, builds[d], races, opponents);
      var entry := DifficultyHeader(d, span, raceHeaders);
      HeaderEntry(d, builds[d], races, raceHeaders, span);
      ColumnsAppend(header, entry);
      HeadersGrow(difficulties, builds, header, entry);
      header := header + [entry];
    }
  }

  /** Race and difficulty spans as HeaderFor gives them: each span counts the leaves beneath it. */
  ghost predicate WellSpanned(h: seq<DifficultyHeader>)
  {
    forall i :: 0 <= i < |h| ==>
      && h[i].span == SpanSum(h[i].races)
      && forall j :: 0 <= j < |h[i].races| ==> h[i].races[j].span == |h[i].races[j].builds|
  }

  lemma {:induction false} RaceColumnsCount(d: string, rs: seq<RaceHeader>)
    requires forall j :: 0 <= j < |rs| ==> rs[j].span == |rs[j].builds|
    ensures |RaceColumns(d, rs)| == SpanSum(rs)
  {
    if rs != [] {
      RaceColumnsCount(d, rs[..|rs| - 1]);
    }
  }

  /** The difficulty spans add up to the number of leaf columns. */
  lemma {:induction false} ColumnsCount(h: seq<DifficultyHeader>)
    requires WellSpanned(h)
    ensures |Columns(h)| == TotalSpan(h)
  {
    if h != [] {
      var p := h[..|h| - 1];
      assert WellSpanned(p) by {
        assert forall i :: 0 <= i < |p| ==> p[i] == h[i];
      }
      ColumnsCount(p);
      RaceColumnsCount(h[|h| - 1].difficulty, h[|h| - 1].races);
    }
  }

  /** Some race in `rs` is the race of `o` and lists its build. */
  ghost predicate InRaces(rs: seq<RaceHeader>, o: Opponent)
  {
    exists j :: 0 <= j < |rs| && rs[j].name == o.race && o.build in rs[j].builds
  }

  lemma {:induction false} RaceColumnsMember(d: string, rs: seq<RaceHeader>, o: Opponent)
    ensures o in RaceColumns(d, rs) <==> o.difficulty == d && InRaces(rs, o)
  {
    if rs != [] {
      var p, r := rs[..|rs| - 1], rs[|rs| - 1];
      RaceColumnsMember(d, p, o);
      assert forall j :: 0 <= j < |p| ==> p[j] == rs[j];
      assert o in BuildColumns(d, r) <==> o.difficulty == d && o.race == r.name && o.build in r.builds by {
        if o.difficulty == d && o.race == r.name && o.build in r.builds {
          var k :| 0 <= k < |r.builds| && r.builds[k] == o.build;
          assert BuildColumns(d, r)[k] == o;
        }
      }
      if o.difficulty == d && InRaces(rs, o) {
        var j :| 0 <= j < |rs| && rs[j].name == o.race && o.build in rs[j].builds;
        if j < |p| {
          assert InRaces(p, o);
        }
      }
    }
  }

  /** A column is in the header exactly when its difficulty, race and build are. */
  lemma {:induction false} ColumnsMember(h: seq<DifficultyHeader>, o: Opponent)
    ensures o in Columns(h) <==>
      exists i :: 0 <= i < |h| && h[i].difficulty == o.difficulty && InRaces(h[i].races, o)
  {
    if h != [] {
      var p, e := h[..|h| - 1], h[|h| - 1];
      ColumnsMember(p, o);
      RaceColumnsMember(e.difficulty, e.races, o);
      assert forall i :: 0 <= i < |p| ==> p[i] == h[i];
      if exists i :: 0 <= i < |h| && h[i].difficulty == o.difficulty && InRaces(h[i].races, o) {
        var i :| 0 <= i < |h| && h[i].difficulty == o.difficulty && InRaces(h[i].races, o);
        if i < |p| {
          assert p[i] == h[i];
        }
      }
    }
  }

  /** Where a difficulty stands in the sorted difficulties; one not among them stands last. */
  function Position(ds: seq<string>, d: string): nat
  {
    if d in ds then Find(ds, d) else |ds|
  }

  /** Column `a` comes before column `b`: by difficulty position, then race, then build. */
  predicate ColumnBefore(ds: seq<string>, a: Opponent, b: Opponent)
  {
    || Position(ds, a.difficulty) < Position(ds, b.difficulty)
    || (a.difficulty == b.difficulty &&
         (Less(a.race, b.race) || (a.race == b.race && Less(a.build, b.build))))
  }

  ghost predicate InColumnOrder(ds: seq<string>, os: seq<Opponent>)
  {
    forall i, j :: 0 <= i < j < |os| ==> ColumnBefore(ds, os[i], os[j])
  }

  /** Column order is strict, so columns in that order are distinct. */
  lemma ColumnOrderDistinct(ds: seq<string>, os: seq<Opponent>)
    requires InColumnOrder(ds, os)
    ensures forall i, j :: 0 <= i < j < |os| ==> os[i] != os[j]
  {
    forall i, j | 0 <= i < j < |os|
      ensures os[i] != os[j]
    {
      LessIrreflexive(os[i].race);
      LessIrreflexive(os[i].build);
    }
  }

  lemma OrderConcat(ds: seq<string>, a: seq<Opponent>, b: seq<Opponent>)
    requires InColumnOrder(ds, a) && InColumnOrder(ds, b)
    requires forall x, y :: x in a && y in b ==> ColumnBefore(ds, x, y)
    ensures InColumnOrder(ds, a + b)
  {
    forall i, j | 0 <= i < j < |a + b|
      ensures ColumnBefore(ds, (a + b)[i], (a + b)[j])
    {
      if i < |a| && j >= |a| {
        assert (a + b)[i] in a && (a + b)[j] in b;
      } else if i >= |a| {
        assert (a + b)[i] == b[i - |a|] && (a + b)[j] == b[j - |a|];
      }
    }
  }

  lemma BuildColumnsOrdered(ds: seq<string>, d: string, r: RaceHeader)
    requires StrictlySorted(r.builds)
    ensures InColumnOrder(ds, BuildColumns(d, r))
  {
  }

  lemma {:induction false} RaceColumnsOrdered(ds: seq<string>, d: string, rs: seq<RaceHeader>)
    requires StrictlySorted(Names(rs))
    requires forall j :: 0 <= j < |rs| ==> StrictlySorted(rs[j].builds)
    ensures InColumnOrder(ds, RaceColumns(d, rs))
  {
    if rs != [] {
      var p, r := rs[..|rs| - 1], rs[|rs| - 1];
      assert Names(p) == Names(rs)[..|p|];
      RaceColumnsOrdered(ds, d, p);
      BuildColumnsOrdered(ds, d, r);
      forall x, y | x in RaceColumns(d, p) && y in BuildColumns(d, r)
        ensures ColumnBefore(ds, x, y)
      {
        RaceColumnsMember(d, p, x);
        var j :| 0 <= j < |p| && p[j].name == x.race && x.build in p[j].builds;
        assert Names(rs)[j] == x.race && Names(rs)[|p|] == r.name;
        var k :| 0 <= k < |r.builds| && BuildColumns(d, r)[k] == y;
      }
      OrderConcat(ds, RaceColumns(d, p), BuildColumns(d, r));
    }
  }

  /** The header's difficulties are the first `|h|` of `ds`, with races and builds in ascending order. */
  ghost predicate SortedHeader(ds: seq<string>, h: seq<DifficultyHeader>)
  {
    && |h| <= |ds|
    && (forall i :: 0 <= i < |h| ==> h[i].difficulty == ds[i])
    && (forall i :: 0 <= i < |h| ==> StrictlySorted(Names(h[i].races)))
    && (forall i, j :: 0 <= i < |h| && 0 <= j < |h[i].races| ==> StrictlySorted(h[i].races[j].builds))
  }

  /** The leaf columns are in difficulty, then race, then build order. */
  lemma {:induction false} ColumnsOrdered(ds: seq<string>, h: seq<DifficultyHeader>)
    requires Distinct(ds) && SortedHeader(ds, h)
    ensures InColumnOrder(ds, Columns(h))
  {
    if h != [] {
      var p, e := h[..|h| - 1], h[|h| - 1];
      assert forall i :: 0 <= i < |p| ==> p[i] == h[i];
      ColumnsOrdered(ds, p);
      RaceColumnsOrdered(ds, e.difficulty, e.races);
      forall x, y | x in Columns(p) && y in RaceColumns(e.difficulty, e.races)
        ensures ColumnBefore(ds, x, y)
      {
        EarlierDifficulty(ds, p, e, x, y);
      }
      OrderConcat(ds, Columns(p), RaceColumns(e.difficulty, e.races));
    }
  }

  /** A column of an earlier difficulty comes before every column of a later one. */
  lemma EarlierDifficulty(ds: seq<string>, p: seq<DifficultyHeader>, e: DifficultyHeader, x: Opponent, y: Opponent)
    requires Distinct(ds) && |p| < |ds| && e.difficulty == ds[|p|]
    requires forall i :: 0 <= i < |p| ==> p[i].difficulty == ds[i]
    requires x in Columns(p) && y in RaceColumns(e.difficulty, e.races)
    ensures ColumnBefore(ds, x, y)
  {
    ColumnsMember(p, x);
    RaceColumnsMember(e.difficulty, e.races, y);
    var i :| 0 <= i < |p| && p[i].difficulty == x.difficulty && InRaces(p[i].races, x);
    FindDistinct(ds, i);
    FindDistinct(ds, |p|);
    assert Position(ds, x.difficulty) == i;
    assert Position(ds, y.difficulty) == |p|;
  }
}
