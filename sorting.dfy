/**
 * The two orderings the match list sorts by, and Python's `sorted` over a
 * collection of distinct keys: strings in code-point order (races and builds)
 * and integers in descending order (test groups).
 */
module Sorting {

  /** Python's `<` on `str`: code points compared left to right, a proper prefix first. */
  predicate Less(a: string, b: string)
    decreases |a|
  {
    if |a| == 0 then |b| > 0
    else if |b| == 0 then false
    else a[0] < b[0] || (a[0] == b[0] && Less(a[1..], b[1..]))
  }

  lemma {:induction false} LessIrreflexive(a: string)
    ensures !Less(a, a)
    decreases |a|
  {
    if |a| > 0 {
      LessIrreflexive(a[1..]);
    }
  }

  lemma {:induction false} LessTransitive(a: string, b: string, c: string)
    requires Less(a, b) && Less(b, c)
    ensures Less(a, c)
    decreases |a|
  {
    if |a| > 0 && a[0] == b[0] && b[0] == c[0] {
      LessTransitive(a[1..], b[1..], c[1..]);
    }
  }

  /** Any two different strings are ordered one way or the other. */
  lemma {:induction false} LessTotal(a: string, b: string)
    requires a != b
    ensures Less(a, b) || Less(b, a)
    decreases |a|
  {
    if |a| > 0 && |b| > 0 && a[0] == b[0] {
      assert a == [a[0]] + a[1..] && b == [b[0]] + b[1..];
      LessTotal(a[1..], b[1..]);
    }
  }

  lemma LessAsymmetric(a: string, b: string)
    ensures !(Less(a, b) && Less(b, a))
  {
    if Less(a, b) && Less(b, a) {
      LessTransitive(a, b, a);
      LessIrreflexive(a);
    }
  }

  /** Ascending and free of duplicates, which is what `sorted` gives on distinct keys. */
  predicate StrictlySorted(s: seq<string>)
  {
    forall i, j :: 0 <= i < j < |s| ==> Less(s[i], s[j])
  }

  lemma LessThanSorted(x: string, s: seq<string>)
    requires StrictlySorted(s) && |s| > 0 && Less(x, s[0])
    ensures forall j :: 0 <= j < |s| ==> Less(x, s[j])
  {
    forall j | 0 < j < |s|
      ensures Less(x, s[j])
    {
      LessTransitive(x, s[0], s[j]);
    }
  }

  /** Places a new key into a strictly sorted sequence at its rank. */
  function Insert(s: seq<string>, x: string): (r: seq<string>)
    requires StrictlySorted(s) && x !in s
    ensures StrictlySorted(r)
    ensures forall y :: y in r <==> y == x || y in s
    ensures |r| == |s| + 1
    decreases |s|
  {
    if s == [] then [x]
    else if Less(x, s[0]) then
      LessThanSorted(x, s);
      [x] + s
    else
      LessTotal(x, s[0]);
      assert s == [s[0]] + s[1..];
      var t := Insert(s[1..], x);
      assert forall y :: y in t ==> Less(s[0], y);
      [s[0]] + t
  }

  /**
   * `sorted(keys)` for a set of distinct strings: the keys in ascending order,
   * each once. The result is the only strictly sorted sequence of those keys
   * (SortedUnique), so the order in which the loop picks them does not matter.
   */
  method SortStrings(keys: set<string>) returns (r: seq<string>)
    ensures StrictlySorted(r)
    ensures forall y :: y in r <==> y in keys
  {
    r := [];
    var rest := keys;
    while |rest| > 0
      invariant rest <= keys
      invariant StrictlySorted(r)
      invariant forall y :: y in r <==> y in keys && y !in rest
      decreases |rest|
    {
      var x := Pick(rest);
      r := Insert(r, x);
      rest := rest - {x};
    }
  }

  /** Some element of a non-empty set: the next key a `for` loop over the set visits. */
  method Pick<T>(s: set<T>) returns (x: T)
    requires |s| > 0
    ensures x in s
  {
    x :| x in s;
  }

  /** Two strictly sorted sequences of the same keys are the same sequence. */
  lemma {:induction false} SortedUnique(s: seq<string>, t: seq<string>)
    requires StrictlySorted(s) && StrictlySorted(t)
    requires forall y :: y in s <==> y in t
    ensures s == t
    decreases |s|
  {
    assert s != [] ==> s[0] in t;
    assert t != [] ==> t[0] in s;
    if s != [] && t != [] {
      var k :| 0 <= k < |s| && s[k] == t[0];
      var l :| 0 <= l < |t| && t[l] == s[0];
      LessAsymmetric(s[0], t[0]);
      assert s[0] == t[0];
      assert s == [s[0]] + s[1..] && t == [t[0]] + t[1..];
      forall y | y in s[1..]
        ensures y in t[1..]
      {
        var i :| 1 <= i < |s| && s[i] == y;
        assert Less(s[0], y);
        LessIrreflexive(y);
        assert y in s;
      }
      forall y | y in t[1..]
        ensures y in s[1..]
      {
        var i :| 1 <= i < |t| && t[i] == y;
        assert Less(t[0], y);
        LessIrreflexive(y);
        assert y in t;
      }
      SortedUnique(s[1..], t[1..]);
    }
  }

  /** Descending and free of duplicates: `sorted(keys, reverse=True)` on distinct integers. */
  predicate StrictlyDescending(s: seq<int>)
  {
    forall i, j :: 0 <= i < j < |s| ==> s[i] > s[j]
  }

  function InsertDescending(s: seq<int>, x: int): (r: seq<int>)
    requires StrictlyDescending(s) && x !in s
    ensures StrictlyDescending(r)
    ensures forall y :: y in r <==> y == x || y in s
    ensures |r| == |s| + 1
    decreases |s|
  {
    if s == [] || x > s[0] then [x] + s
    else
      var t := InsertDescending(s[1..], x);
      BelowHead(s, x, t);
      [s[0]] + t
  }

  lemma BelowHead(s: seq<int>, x: int, t: seq<int>)
    requires StrictlyDescending(s) && |s| > 0 && x < s[0]
    requires StrictlyDescending(t)
    requires forall y :: y in t <==> y == x || y in s[1..]
    ensures StrictlyDescending([s[0]] + t)
    ensures forall y :: y in [s[0]] + t <==> y == x || y in s
  {
    assert s == [s[0]] + s[1..];
    forall j | 0 <= j < |t|
      ensures s[0] > t[j]
    {
      assert t[j] in t;
    }
  }

  method SortDescending(keys: set<int>) returns (r: seq<int>)
    ensures StrictlyDescending(r)
    ensures forall y :: y in r <==> y in keys
  {
    r := [];
    var rest := keys;
    while |rest| > 0
      invariant rest <= keys
      invariant StrictlyDescending(r)
      invariant forall y :: y in r <==> y in keys && y !in rest
      decreases |rest|
    {
      var x := Pick(rest);
      r := InsertDescending(r, x);
      rest := rest - {x};
    }
  }

  /** Ordered by `key`; members with equal keys may come in any order. */
  predicate KeySorted(s: seq<string>, key: string -> nat)
  {
    forall i, j :: 0 <= i < j < |s| ==> key(s[i]) <= key(s[j])
  }

  /** The members of `s` whose key is `k`, in their order in `s`. */
  function OfKey(s: seq<string>, key: string -> nat, k: nat): seq<string>
  {
    if s == [] then [] else (if key(s[0]) == k then [s[0]] else []) + OfKey(s[1..], key, k)
  }

  lemma {:induction false} OfKeyConcat(a: seq<string>, b: seq<string>, key: string -> nat, k: nat)
    ensures OfKey(a + b, key, k) == OfKey(a, key, k) + OfKey(b, key, k)
  {
    if a == [] {
      assert a + b == b;
    } else {
      var head := if key(a[0]) == k then [a[0]] else [];
      assert (a + b)[0] == a[0];
      assert (a + b)[1..] == a[1..] + b;
      OfKeyConcat(a[1..], b, key, k);
      calc {
        OfKey(a + b, key, k);
        head + OfKey(a[1..] + b, key, k);
        head + (OfKey(a[1..], key, k) + OfKey(b, key, k));
        (head + OfKey(a[1..], key, k)) + OfKey(b, key, k);
        OfKey(a, key, k) + OfKey(b, key, k);
      }
    }
  }

  lemma {:induction false} OfKeyAbove(s: seq<string>, key: string -> nat, k: nat)
    requires KeySorted(s, key) && s != [] && k < key(s[0])
    ensures OfKey(s, key, k) == []
  {
    if |s| > 1 {
      OfKeyAbove(s[1..], key, k);
    }
  }

  /** Puts `x` after every member whose key is at most its own. */
  function InsertByKey(s: seq<string>, x: string, key: string -> nat): seq<string>
  {
    if s == [] || key(x) < key(s[0]) then [x] + s
    else [s[0]] + InsertByKey(s[1..], x, key)
  }

  /** Python's stable `sorted(ds, key=key)`, as an insertion sort. */
  function SortByKey(ds: seq<string>, key: string -> nat): seq<string>
  {
    if ds == [] then []
    else InsertByKey(SortByKey(ds[..|ds| - 1], key), ds[|ds| - 1], key)
  }

  lemma {:induction false} InsertByKeyPermutes(s: seq<string>, x: string, key: string -> nat)
    ensures multiset(InsertByKey(s, x, key)) == multiset(s) + multiset{x}
  {
    if s != [] && key(x) >= key(s[0]) {
      assert s == [s[0]] + s[1..];
      InsertByKeyPermutes(s[1..], x, key);
    }
  }

  lemma {:induction false} InsertByKeySorted(s: seq<string>, x: string, key: string -> nat)
    requires KeySorted(s, key)
    ensures KeySorted(InsertByKey(s, x, key), key)
  {
    if s == [] {
    } else if key(x) < key(s[0]) {
      ConsSorted(x, s, key);
    } else {
      var t := s[1..];
      assert KeySorted(t, key);
      InsertByKeySorted(t, x, key);
      InsertByKeyPermutes(t, x, key);
      var u := InsertByKey(t, x, key);
      forall j | 0 <= j < |u|
        ensures key(s[0]) <= key(u[j])
      {
        assert u[j] in multiset(t) + multiset{x} by {
          assert u[j] in multiset(u);
        }
      }
      ConsSorted(s[0], u, key);
    }
  }

  lemma ConsSorted(h: string, u: seq<string>, key: string -> nat)
    requires KeySorted(u, key)
    requires forall j :: 0 <= j < |u| ==> key(h) <= key(u[j])
    ensures KeySorted([h] + u, key)
  {
    forall i, j | 0 <= i < j < |[h] + u|
      ensures key(([h] + u)[i]) <= key(([h] + u)[j])
    {
      assert ([h] + u)[j] == u[j - 1];
      if i > 0 {
        assert ([h] + u)[i] == u[i - 1];
      }
    }
  }

  lemma OfKeySingle(x: string, key: string -> nat, k: nat)
    ensures OfKey([x], key, k) == if key(x) == k then [x] else []
  {
    assert [x][1..] == [];
  }

  lemma {:induction false} InsertByKeyStable(s: seq<string>, x: string, key: string -> nat, k: nat)
    requires KeySorted(s, key)
    ensures OfKey(InsertByKey(s, x, key), key, k) == OfKey(s, key, k) + OfKey([x], key, k)
  {
    if s == [] {
      assert OfKey(s, key, k) == [];
    } else if key(x) < key(s[0]) {
      StableInFront(s, x, key, k);
    } else {
      assert KeySorted(s[1..], key);
      InsertByKeyStable(s[1..], x, key, k);
      StableBehind(s, InsertByKey(s[1..], x, key), x, key, k);
    }
  }

  lemma StableInFront(s: seq<string>, x: string, key: string -> nat, k: nat)
    requires KeySorted(s, key) && s != [] && key(x) < key(s[0])
    ensures OfKey([x] + s, key, k) == OfKey(s, key, k) + OfKey([x], key, k)
  {
    OfKeySingle(x, key, k);
    OfKeyConcat([x], s, key, k);
    if key(x) == k {
      OfKeyAbove(s, key, k);
    }
  }

  lemma StableBehind(s: seq<string>, u: seq<string>, x: string, key: string -> nat, k: nat)
    requires s != []
    requires OfKey(u, key, k) == OfKey(s[1..], key, k) + OfKey([x], key, k)
    ensures OfKey([s[0]] + u, key, k) == OfKey(s, key, k) + OfKey([x], key, k)
  {
    var t := s[1..];
    assert [s[0]] + t == s;
    OfKeyConcat([s[0]], u, key, k);
    OfKeyConcat([s[0]], t, key, k);
    var h, a, b := OfKey([s[0]], key, k), OfKey(t, key, k), OfKey([x], key, k);
    assert h + (a + b) == (h + a) + b;
  }

  /**
   * Sorting by key orders the members by key, keeps the same members, and
   * keeps the input order among members with equal keys; together these
   * determine the result of a stable sort.
   */
  lemma {:induction false} SortByKeySpec(ds: seq<string>, key: string -> nat)
    ensures KeySorted(SortByKey(ds, key), key)
    ensures multiset(SortByKey(ds, key)) == multiset(ds)
    ensures forall k :: OfKey(SortByKey(ds, key), key, k) == OfKey(ds, key, k)
  {
    if ds != [] {
      var p, x := ds[..|ds| - 1], ds[|ds| - 1];
      assert ds == p + [x];
      SortByKeySpec(p, key);
      var sp := SortByKey(p, key);
      InsertByKeyPermutes(sp, x, key);
      InsertByKeySorted(sp, x, key);
      forall k
        ensures OfKey(ds, key, k) == OfKey(p, key, k) + OfKey([x], key, k)
        ensures OfKey(InsertByKey(sp, x, key), key, k) == OfKey(sp, key, k) + OfKey([x], key, k)
      {
        OfKeyConcat(p, [x], key, k);
        InsertByKeyStable(sp, x, key, k);
      }
    }
  }
}
