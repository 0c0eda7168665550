/** Ordering of answer lists by confidence: sort.Slice with a ">" comparator, and truncation to the top N. */
module Ranking {

  /** Non-increasing by key. */
  ghost predicate SortedDesc<T>(s: seq<T>, key: T -> real)
  {
    forall i, j :: 0 <= i < j < |s| ==> key(s[i]) >= key(s[j])
  }

  /** Inserts x into a list, ahead of the first element ranked no higher. */
  function Insert<T>(x: T, s: seq<T>, key: T -> real): (r: seq<T>)
    ensures multiset(r) == multiset(s) + multiset{x}
  {
    if s == [] then [x]
    else if key(x) >= key(s[0]) then [x] + s
    else
      assert s == [s[0]] + s[1..];
      [s[0]] + Insert(x, s[1..], key)
  }

  /** Putting an element ranked no lower than all of a non-increasing list in front keeps it non-increasing. */
  lemma ConsSorted<T>(h: T, s: seq<T>, key: T -> real)
    requires SortedDesc(s, key)
    requires forall k :: 0 <= k < |s| ==> key(h) >= key(s[k])
    ensures SortedDesc([h] + s, key)
  {
    var r := [h] + s;
    forall i, j | 0 <= i < j < |r| ensures key(r[i]) >= key(r[j]) {
      assert r[j] == s[j - 1];
      if i > 0 { assert r[i] == s[i - 1]; }
    }
  }

  /** Everything in an insertion into a list's tail ranks no higher than its head, when x does not. */
  lemma HeadDominates<T>(x: T, s: seq<T>, key: T -> real)
    requires s != [] && SortedDesc(s, key) && key(x) < key(s[0])
    ensures forall k :: 0 <= k < |Insert(x, s[1..], key)| ==> key(s[0]) >= key(Insert(x, s[1..], key)[k])
  {
    var rest := Insert(x, s[1..], key);
    forall k | 0 <= k < |rest| ensures key(s[0]) >= key(rest[k]) {
      assert rest[k] in multiset(rest);
      if rest[k] != x {
        assert rest[k] in multiset(s[1..]);
        var j :| 0 <= j < |s[1..]| && s[1..][j] == rest[k];
        assert s[j + 1] == rest[k];
      }
    }
  }

  /** Insertion keeps a non-increasing list non-increasing. */
  lemma {:induction false} InsertSorted<T>(x: T, s: seq<T>, key: T -> real)
    requires SortedDesc(s, key)
    ensures SortedDesc(Insert(x, s, key), key)
  {
    if s == [] {
    } else if key(x) >= key(s[0]) {
      ConsSorted(x, s, key);
    } else {
      InsertSorted(x, s[1..], key);
      HeadDominates(x, s, key);
      ConsSorted(s[0], Insert(x, s[1..], key), key);
    }
  }

  /**
   * The sort: a non-increasing permutation of the input. Go's sort.Slice is
   * not stable, so nothing is promised about the order of equal keys.
   */
  function SortDesc<T>(s: seq<T>, key: T -> real): (r: seq<T>)
    ensures SortedDesc(r, key)
    ensures multiset(r) == multiset(s)
  {
    if s == [] then []
    else
      assert s == [s[0]] + s[1..];
      var rest := SortDesc(s[1..], key);
      InsertSorted(s[0], rest, key);
      Insert(s[0], rest, key)
  }

  /** Cutting a sorted list to its first n leaves out nothing ranked above what it keeps. */
  lemma TopKeepsBest<T>(s: seq<T>, n: nat, key: T -> real)
    requires SortedDesc(s, key)
    requires n <= |s|
    ensures SortedDesc(s[..n], key)
    ensures multiset(s[..n]) <= multiset(s)
    ensures forall x, y :: x in multiset(s) - multiset(s[..n]) && y in s[..n] ==> key(x) <= key(y)
  {
    assert s == s[..n] + s[n..];
    assert multiset(s) == multiset(s[..n]) + multiset(s[n..]);
    forall x, y | x in multiset(s) - multiset(s[..n]) && y in s[..n]
      ensures key(x) <= key(y)
    {
      assert x in multiset(s[n..]);
      var j :| n <= j < |s| && s[j] == x;
      var i :| 0 <= i < n && s[i] == y;
    }
  }

  /**
   * r is the top n of pool: non-increasing, min(|pool|, n) long, drawn
   * from pool, and nothing left out ranks above anything kept.
   */
  ghost predicate KeepsBest<T>(r: seq<T>, pool: seq<T>, n: nat, key: T -> real)
  {
    && SortedDesc(r, key)
    && |r| == (if |pool| < n then |pool| else n)
    && multiset(r) <= multiset(pool)
    && (forall x, y :: x in multiset(pool) - multiset(r) && y in r ==> key(x) <= key(y))
  }

  /** Sorting a pool and cutting it to its first n elements yields its top n. */
  lemma SortThenCut<T>(pool: seq<T>, n: nat, key: T -> real)
    ensures var sorted := SortDesc(pool, key);
            KeepsBest(if |sorted| > n then sorted[..n] else sorted, pool, n, key)
  {
    var sorted := SortDesc(pool, key);
    var m := if |sorted| > n then n else |sorted|;
    assert |sorted| == |pool| by {
      assert |multiset(sorted)| == |multiset(pool)|;
    }
    TopKeepsBest(sorted, m, key);
    assert sorted[..|sorted|] == sorted;
  }

  /** The result lists of several sources, concatenated in source order. */
  function Flatten<T>(ss: seq<seq<T>>): seq<T>
  {
    if ss == [] then [] else Flatten(ss[..|ss| - 1]) + ss[|ss| - 1]
  }

  /** Flattening one more list appends it. */
  lemma FlattenOneMore<T>(ss: seq<seq<T>>, s: seq<T>)
    ensures Flatten(ss + [s]) == Flatten(ss) + s
  {
    assert (ss + [s])[..|ss|] == ss;
  }
}
