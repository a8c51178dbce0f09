/** The array operations the pages apply to query results: `filter`,
    `find`, a stable descending `sort`, `slice(0, n)` and `new Set(...)`
    deduplication. */
module Seqs {
  import opened Tables

  /** `s.filter(p)`: the elements satisfying `p`, in their original order. */
  function Filter<T(!new)>(s: seq<T>, p: T -> bool): (r: seq<T>)
    ensures |r| <= |s|
    ensures forall x :: x in r <==> x in s && p(x)
    ensures forall i :: 0 <= i < |r| ==> p(r[i])
    ensures multiset(r) <= multiset(s)
  {
    if |s| == 0 then []
    else
      assert s == [s[0]] + s[1..];
      (if p(s[0]) then [s[0]] else []) + Filter(s[1..], p)
  }

  lemma {:induction false} FilterAll<T(!new)>(s: seq<T>, p: T -> bool)
    requires forall i :: 0 <= i < |s| ==> p(s[i])
    ensures Filter(s, p) == s
  {
    if |s| > 0 {
      FilterAll(s[1..], p);
    }
  }

  lemma {:induction false} FilterAppend<T(!new)>(a: seq<T>, b: seq<T>, p: T -> bool)
    ensures Filter(a + b, p) == Filter(a, p) + Filter(b, p)
  {
    if |a| > 0 {
      assert (a + b)[1..] == a[1..] + b;
      FilterAppend(a[1..], b, p);
    } else {
      assert a + b == b;
    }
  }

  lemma {:induction false} FilterCons<T(!new)>(x: T, s: seq<T>, p: T -> bool)
    ensures Filter([x] + s, p) == (if p(x) then [x] else []) + Filter(s, p)
  {
    assert ([x] + s)[1..] == s;
  }

  /** The positions of `s` whose element satisfies `p`. */
  ghost function Positions<T>(s: seq<T>, p: T -> bool): set<int> {
    set i | 0 <= i < |s| && p(s[i])
  }

  /** The number of elements of `s` satisfying `p`, counted from the end. */
  function CountWhere<T>(s: seq<T>, p: T -> bool): nat
    decreases |s|
  {
    if |s| == 0 then 0
    else CountWhere(s[..|s| - 1], p) + if p(s[|s| - 1]) then 1 else 0
  }

  /** `s.filter(p).length` is the number of positions satisfying `p`. */
  lemma {:induction false} FilterCount<T(!new)>(s: seq<T>, p: T -> bool)
    ensures |Filter(s, p)| == |Positions(s, p)|
  {
    FilterCountWhere(s, p);
    PositionsCountWhere(s, p);
  }

  lemma {:induction false} FilterCountWhere<T(!new)>(s: seq<T>, p: T -> bool)
    ensures |Filter(s, p)| == CountWhere(s, p)
    decreases |s|
  {
    if |s| > 0 {
      FilterCountWhere(s[..|s| - 1], p);
      FilterSnoc(s, p);
    }
  }

  lemma {:induction false} PositionsCountWhere<T>(s: seq<T>, p: T -> bool)
    ensures |Positions(s, p)| == CountWhere(s, p)
    decreases |s|
  {
    if |s| > 0 {
      var n := |s| - 1;
      PositionsCountWhere(s[..n], p);
      PositionsSnoc(s, p);
      if p(s[n]) {
        CardAddOne(Positions(s[..n], p), n);
      }
    }
  }

  lemma {:induction false} CardAddOne(a: set<int>, x: int)
    requires x !in a
    ensures |a + {x}| == |a| + 1
  {
  }

  lemma {:induction false} FilterSnoc<T(!new)>(s: seq<T>, p: T -> bool)
    requires |s| > 0
    ensures var n := |s| - 1;
      |Filter(s, p)| == |Filter(s[..n], p)| + if p(s[n]) then 1 else 0
  {
    var n := |s| - 1;
    assert s == s[..n] + [s[n]];
    FilterAppend(s[..n], [s[n]], p);
    assert Filter([s[n]], p) == if p(s[n]) then [s[n]] else [] by {
      assert [s[n]][1..] == [];
    }
  }

  lemma {:induction false} PositionsSnoc<T>(s: seq<T>, p: T -> bool)
    requires |s| > 0
    ensures var n := |s| - 1; n !in Positions(s[..n], p)
    ensures var n := |s| - 1; p(s[n]) ==> Positions(s, p) == Positions(s[..n], p) + {n}
    ensures var n := |s| - 1; !p(s[n]) ==> Positions(s, p) == Positions(s[..n], p)
  {
    var n := |s| - 1;
    var a := s[..n];
    forall i
      ensures i in Positions(s, p) <==> i in Positions(a, p) || (i == n && p(s[n]))
    {
      if 0 <= i < n {
        assert s[i] == a[i];
      }
    }
  }

  /** Filtering drops at least one element when one fails `p`. */
  lemma {:induction false} FilterShorter<T(!new)>(s: seq<T>, p: T -> bool, k: nat)
    requires k < |s| && !p(s[k])
    ensures |Filter(s, p)| < |s|
  {
    if k > 0 {
      FilterShorter(s[1..], p, k - 1);
    }
  }

  /** Filtering twice is filtering once by both conditions. */
  lemma {:induction false} FilterFilter<T(!new)>(s: seq<T>, p: T -> bool, q: T -> bool, both: T -> bool)
    requires forall x :: both(x) == (p(x) && q(x))
    ensures Filter(Filter(s, p), q) == Filter(s, both)
  {
    if |s| > 0 {
      var t := s[1..];
      FilterFilter(t, p, q, both);
      assert Filter(s, both) == (if both(s[0]) then [s[0]] else []) + Filter(t, both);
      if p(s[0]) {
        assert Filter(s, p) == [s[0]] + Filter(t, p);
        FilterCons(s[0], Filter(t, p), q);
        assert both(s[0]) == q(s[0]);
      } else {
        assert Filter(s, p) == Filter(t, p);
        assert !both(s[0]);
      }
    }
  }

  /** No two elements share a key. */
  ghost predicate KeysUnique<T, K>(s: seq<T>, key: T -> K) {
    forall i, j :: 0 <= i < j < |s| ==> key(s[i]) != key(s[j])
  }

  /** On a table with unique keys, selecting one key finds at most one
      row, and finds one exactly when a row has the key. */
  lemma {:induction false} FilterKeyAtMostOne<T(!new), K>(s: seq<T>, key: T -> K, k: K, p: T -> bool)
    requires KeysUnique(s, key)
    requires forall x :: p(x) <==> key(x) == k
    ensures |Filter(s, p)| <= 1
    ensures |Filter(s, p)| == 1 <==> exists i :: 0 <= i < |s| && key(s[i]) == k
  {
    if |s| > 0 {
      var t := s[1..];
      assert KeysUnique(t, key) by {
        forall i, j | 0 <= i < j < |t|
          ensures key(t[i]) != key(t[j])
        {
          assert t[i] == s[i + 1] && t[j] == s[j + 1];
        }
      }
      FilterKeyAtMostOne(t, key, k, p);
      assert Filter(s, p) == (if p(s[0]) then [s[0]] else []) + Filter(t, p);
      if key(s[0]) == k {
        forall j | 0 <= j < |t|
          ensures key(t[j]) != k
        {
          assert t[j] == s[j + 1];
        }
      } else {
        if exists i :: 0 <= i < |s| && key(s[i]) == k {
          var i :| 0 <= i < |s| && key(s[i]) == k;
          assert t[i - 1] == s[i];
        }
        if exists i :: 0 <= i < |t| && key(t[i]) == k {
          var i :| 0 <= i < |t| && key(t[i]) == k;
          assert s[i + 1] == t[i];
        }
      }
    }
  }

  /** An `upsert` on a table keyed by `key`: the rows with `x`'s key are
      replaced by `x`, or `x` is added when there are none. */
  function UpsertBy<T(!new), K(==)>(s: seq<T>, x: T, key: T -> K): (r: seq<T>)
    ensures forall y :: y in r <==> y == x || (y in s && key(y) != key(x))
    ensures KeysUnique(s, key) ==> KeysUnique(r, key)
  {
    if exists i :: 0 <= i < |s| && key(s[i]) == key(x) then
      var r := ReplaceBy(s, x, key);
      assert x in r by {
        var i :| 0 <= i < |s| && key(s[i]) == key(x);
        assert r[i] == x;
      }
      r
    else
      var r := s + [x];
      assert forall y :: y in s ==> key(y) != key(x);
      assert KeysUnique(s, key) ==> KeysUnique(r, key) by {
        if KeysUnique(s, key) {
          forall i, j | 0 <= i < j < |r|
            ensures key(r[i]) != key(r[j])
          {
            if j == |s| {
              assert r[i] == s[i];
            } else {
              assert r[i] == s[i] && r[j] == s[j];
            }
          }
        }
      }
      r
  }

  /** A run of `upsert`s, one per row, in order. */
  function UpsertAll<T(!new), K(==)>(s: seq<T>, rows: seq<T>, key: T -> K): (r: seq<T>)
    ensures KeysUnique(s, key) ==> KeysUnique(r, key)
    ensures forall y :: y in r ==> y in s || y in rows
    ensures forall y :: y in s && (forall i :: 0 <= i < |rows| ==> key(rows[i]) != key(y)) ==> y in r
    decreases |rows|
  {
    if |rows| == 0 then s
    else
      var r := UpsertAll(UpsertBy(s, rows[0], key), rows[1..], key);
      assert forall i :: 1 <= i < |rows| ==> rows[1..][i - 1] == rows[i];
      r
  }

  /** When the rows have distinct keys, every one of them ends up stored. */
  lemma {:induction false} UpsertAllStoresRows<T(!new), K>(s: seq<T>, rows: seq<T>, key: T -> K)
    requires KeysUnique(rows, key)
    ensures forall i :: 0 <= i < |rows| ==> rows[i] in UpsertAll(s, rows, key)
    decreases |rows|
  {
    if |rows| > 0 {
      var s' := UpsertBy(s, rows[0], key);
      var rest := rows[1..];
      assert KeysUnique(rest, key) by {
        forall i, j | 0 <= i < j < |rest|
          ensures key(rest[i]) != key(rest[j])
        {
          assert rest[i] == rows[i + 1] && rest[j] == rows[j + 1];
        }
      }
      UpsertAllStoresRows(s', rest, key);
      forall i | 0 <= i < |rest|
        ensures key(rest[i]) != key(rows[0])
      {
        assert rest[i] == rows[i + 1];
      }
      forall i | 0 <= i < |rows|
        ensures rows[i] in UpsertAll(s, rows, key)
      {
        if i > 0 {
          assert rows[i] == rest[i - 1];
        }
      }
    }
  }

  function ReplaceBy<T, K(==)>(s: seq<T>, x: T, key: T -> K): (r: seq<T>)
    ensures |r| == |s|
    ensures forall i :: 0 <= i < |s| ==> r[i] == if key(s[i]) == key(x) then x else s[i]
  {
    if |s| == 0 then [] else [if key(s[0]) == key(x) then x else s[0]] + ReplaceBy(s[1..], x, key)
  }

  /** `s.find(p)`: the first element satisfying `p`, if any. */
  function Find<T>(s: seq<T>, p: T -> bool): (r: Option<T>)
    ensures r.None? <==> forall i :: 0 <= i < |s| ==> !p(s[i])
    ensures r.Some? ==> r.value in s && p(r.value)
    ensures r.Some? ==> exists i :: 0 <= i < |s| && s[i] == r.value && forall j :: 0 <= j < i ==> !p(s[j])
  {
    if |s| == 0 then None
    else if p(s[0]) then Some(s[0])
    else Find(s[1..], p)
  }

  /** `s.slice(0, n)`, which is also what a query's `.limit(n)` returns. */
  function Take<T>(s: seq<T>, n: nat): (r: seq<T>)
    ensures |r| <= n && |r| <= |s|
    ensures |s| <= n ==> r == s
    ensures r == s[..|r|]
  {
    if |s| <= n then s else s[..n]
  }

  /** Ordered by `key`, largest first. */
  ghost predicate SortedDesc<T>(s: seq<T>, key: T -> int) {
    forall i, j :: 0 <= i < j < |s| ==> key(s[i]) >= key(s[j])
  }

  /** Places `x` in front of the first element whose key does not exceed
      its own, so `x` precedes the elements it ties with. */
  function InsertDesc<T>(x: T, s: seq<T>, key: T -> int): (r: seq<T>)
    requires SortedDesc(s, key)
    ensures SortedDesc(r, key)
    ensures multiset(r) == multiset(s) + multiset{x}
    ensures |r| == |s| + 1
  {
    if |s| == 0 then [x]
    else if key(s[0]) <= key(x) then [x] + s
    else
      var rest := InsertDesc(x, s[1..], key);
      InsertBehindHead(x, s, key, rest);
      [s[0]] + rest
  }

  /** When `x` goes behind the head of `s`, the head still leads. */
  lemma {:induction false} InsertBehindHead<T>(x: T, s: seq<T>, key: T -> int, rest: seq<T>)
    requires SortedDesc(s, key) && |s| > 0 && key(s[0]) > key(x)
    requires SortedDesc(rest, key) && multiset(rest) == multiset(s[1..]) + multiset{x}
    ensures SortedDesc([s[0]] + rest, key)
    ensures multiset([s[0]] + rest) == multiset(s) + multiset{x}
  {
    assert s == [s[0]] + s[1..];
    forall i | 0 <= i < |rest|
      ensures key(s[0]) >= key(rest[i])
    {
      assert rest[i] in multiset(rest);
      assert rest[i] == x || rest[i] in s[1..];
    }
  }

  /** `[...s].sort((a, b) => key(b) - key(a))`: JavaScript's sort is
      stable, and inserting each element ahead of its equals, working from
      the back of the array, keeps that order among ties. */
  function SortDesc<T>(s: seq<T>, key: T -> int): (r: seq<T>)
    ensures SortedDesc(r, key)
    ensures multiset(r) == multiset(s)
    ensures |r| == |s|
  {
    if |s| == 0 then []
    else
      assert s == [s[0]] + s[1..];
      InsertDesc(s[0], SortDesc(s[1..], key), key)
  }

  /** Sorting keeps exactly the elements it was given. */
  lemma {:induction false} SortDescMembers<T>(s: seq<T>, key: T -> int)
    ensures forall x :: x in SortDesc(s, key) <==> x in s
  {
    var r := SortDesc(s, key);
    forall x
      ensures x in r <==> x in s
    {
      assert x in r <==> x in multiset(r);
      assert x in s <==> x in multiset(s);
    }
  }

  /** `.order(key, { ascending: false }).limit(n)`: the `n` elements with
      the largest keys, largest first. */
  function Newest<T(!new)>(s: seq<T>, key: T -> int, n: nat): (r: seq<T>)
    ensures |r| == if |s| <= n then |s| else n
    ensures SortedDesc(r, key)
    ensures multiset(r) <= multiset(s)
    ensures forall x, y :: x in multiset(s) - multiset(r) && y in r ==> key(y) >= key(x)
  {
    var t := SortDesc(s, key);
    var r := Take(t, n);
    TopOfSorted(t, key, |r|);
    r
  }

  /** When no more than `n` rows exist, `limit(n)` drops none of them. */
  lemma NewestKeepsAll<T(!new)>(s: seq<T>, key: T -> int, n: nat)
    requires |s| <= n
    ensures multiset(Newest(s, key, n)) == multiset(s)
    ensures forall x :: x in s ==> x in Newest(s, key, n)
  {
    var r := Newest(s, key, n);
    SubMultisetSameSize(multiset(r), multiset(s));
    forall x | x in s
      ensures x in r
    {
      assert x in multiset(s);
    }
  }

  lemma SubMultisetSameSize<T>(a: multiset<T>, b: multiset<T>)
    requires a <= b && |a| == |b|
    ensures a == b
  {
    assert |b - a| == |b| - |a|;
  }

  lemma {:induction false} TopOfSorted<T>(t: seq<T>, key: T -> int, m: nat)
    requires SortedDesc(t, key) && m <= |t|
    ensures multiset(t[..m]) + multiset(t[m..]) == multiset(t)
    ensures SortedDesc(t[..m], key)
    ensures forall x, y :: x in t[m..] && y in t[..m] ==> key(y) >= key(x)
  {
    assert t == t[..m] + t[m..];
    forall x, y | x in t[m..] && y in t[..m]
      ensures key(y) >= key(x)
    {
      var i :| 0 <= i < |t[m..]| && t[m..][i] == x;
      var j :| 0 <= j < m && t[..m][j] == y;
      assert t[m + i] == x && t[j] == y;
    }
  }

  ghost predicate NoDuplicates<T>(s: seq<T>) {
    forall i, j :: 0 <= i < j < |s| ==> s[i] != s[j]
  }

  /** `Array.from(new Set(s))`: each value once, at its first occurrence. */
  function Dedup<T(==,!new)>(s: seq<T>): (r: seq<T>)
    ensures NoDuplicates(r)
    ensures forall x :: x in r <==> x in s
    ensures |s| > 0 ==> |r| > 0 && r[0] == s[0]
  {
    if |s| == 0 then []
    else
      var d := Dedup(s[..|s| - 1]);
      assert s == s[..|s| - 1] + [s[|s| - 1]];
      if s[|s| - 1] in d then d else d + [s[|s| - 1]]
  }

  /** A list ordered largest first, with repeats allowed. */
  ghost predicate NonIncreasing(s: seq<int>) {
    forall i, j :: 0 <= i < j < |s| ==> s[i] >= s[j]
  }

  /** Deduplicating a list ordered largest first leaves a strictly
      decreasing list. */
  lemma {:induction false} DedupStrictlyDecreasing(s: seq<int>)
    requires NonIncreasing(s)
    ensures forall i, j :: 0 <= i < j < |Dedup(s)| ==> Dedup(s)[i] > Dedup(s)[j]
  {
    if |s| > 0 {
      var init := s[..|s| - 1];
      var last := s[|s| - 1];
      DedupStrictlyDecreasing(init);
      var d := Dedup(init);
      if last !in d {
        forall i | 0 <= i < |d|
          ensures d[i] > last
        {
          assert d[i] in init;
          var k :| 0 <= k < |init| && init[k] == d[i];
          assert s[k] >= s[|s| - 1];
        }
      }
    }
  }
}
