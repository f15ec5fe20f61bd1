/** Ordering by a strict total order: the `ORDER BY` clauses of the queries
    and the `Array.prototype.sort` calls with a comparator are both modelled
    as "the unique strictly increasing listing of a finite set". */
module Sorting {

  /** `lt` is a strict total order on the elements of `s`. */
  predicate StrictTotalOn<T(==)>(lt: (T, T) -> bool, s: set<T>) {
    (forall a :: a in s ==> !lt(a, a)) &&
    (forall a, b :: a in s && b in s && a != b ==> lt(a, b) || lt(b, a)) &&
    (forall a, b, c :: a in s && b in s && c in s && lt(a, b) && lt(b, c) ==> lt(a, c))
  }

  /** Every element comes strictly before every later one. */
  predicate SortedBy<T>(lt: (T, T) -> bool, xs: seq<T>) {
    forall i, j :: 0 <= i < j < |xs| ==> lt(xs[i], xs[j])
  }

  function Elements<T>(xs: seq<T>): set<T> {
    set x | x in xs
  }

  predicate IsLeast<T(==)>(lt: (T, T) -> bool, m: T, s: set<T>) {
    m in s && forall x :: x in s && x != m ==> lt(m, x)
  }

  lemma {:induction false} LeastExists<T>(lt: (T, T) -> bool, s: set<T>)
    requires StrictTotalOn(lt, s) && s != {}
    ensures exists m :: IsLeast(lt, m, s)
    decreases |s|
  {
    var a :| a in s;
    if s != {a} {
      var rest := s - {a};
      assert StrictTotalOn(lt, rest);
      LeastExists(lt, rest);
      var m :| IsLeast(lt, m, rest);
      if lt(a, m) {
        assert IsLeast(lt, a, s);
      } else {
        assert IsLeast(lt, m, s);
      }
    } else {
      assert IsLeast(lt, a, s);
    }
  }

  lemma SubsetStrictTotal<T>(lt: (T, T) -> bool, s: set<T>, t: set<T>)
    requires StrictTotalOn(lt, s) && t <= s
    ensures StrictTotalOn(lt, t)
  {
  }

  lemma ConsSorted<T>(lt: (T, T) -> bool, m: T, rest: seq<T>)
    requires SortedBy(lt, rest)
    requires forall x :: x in rest ==> lt(m, x)
    ensures SortedBy(lt, [m] + rest)
  {
    forall i, j | 0 <= i < j < |[m] + rest|
      ensures lt(([m] + rest)[i], ([m] + rest)[j])
    {
      if i > 0 {
        assert ([m] + rest)[i] == rest[i - 1];
      }
      assert ([m] + rest)[j] == rest[j - 1];
    }
  }

  /** The elements of `s`, increasing under `lt`. */
  function SortSet<T(==)>(lt: (T, T) -> bool, s: set<T>): (r: seq<T>)
    requires StrictTotalOn(lt, s)
    ensures |r| == |s|
    ensures Elements(r) == s
    ensures SortedBy(lt, r)
    decreases |s|
  {
    if s == {} then []
    else
      LeastExists(lt, s);
      assert forall m1, m2 :: m1 in s && m2 in s && IsLeast(lt, m1, s) && IsLeast(lt, m2, s) ==> m1 == m2 by {
        forall m1, m2 | m1 in s && m2 in s && IsLeast(lt, m1, s) && IsLeast(lt, m2, s) ensures m1 == m2 {
          LeastUnique(lt, m1, m2, s);
        }
      }
      var m :| IsLeast(lt, m, s);
      SubsetStrictTotal(lt, s, s - {m});
      var rest := SortSet(lt, s - {m});
      assert Elements([m] + rest) == {m} + Elements(rest);
      ConsSorted(lt, m, rest);
      [m] + rest
  }

  /** A strictly sorted listing has no repeated element. */
  lemma SortedDistinct<T>(lt: (T, T) -> bool, xs: seq<T>, i: int, j: int)
    requires StrictTotalOn(lt, Elements(xs)) && SortedBy(lt, xs)
    requires 0 <= i < j < |xs|
    ensures xs[i] != xs[j]
  {
  }

  lemma LeastUnique<T>(lt: (T, T) -> bool, m1: T, m2: T, s: set<T>)
    requires StrictTotalOn(lt, s) && IsLeast(lt, m1, s) && IsLeast(lt, m2, s)
    ensures m1 == m2
  {
  }

  /** The head of a sorted listing is the least of its elements, and the
      tail lists the remaining ones. */
  lemma SortedHead<T>(lt: (T, T) -> bool, xs: seq<T>)
    requires |xs| > 0 && StrictTotalOn(lt, Elements(xs)) && SortedBy(lt, xs)
    ensures IsLeast(lt, xs[0], Elements(xs))
    ensures Elements(xs[1..]) == Elements(xs) - {xs[0]}
  {
    assert xs == [xs[0]] + xs[1..];
    forall z | z in Elements(xs) && z != xs[0] ensures lt(xs[0], z) {
      var k :| 0 <= k < |xs| && xs[k] == z;
    }
    forall z | z in Elements(xs[1..]) ensures z != xs[0] {
      var k :| 0 <= k < |xs[1..]| && xs[1..][k] == z;
      assert lt(xs[0], xs[k + 1]);
    }
  }

  lemma EmptyElements<T>(xs: seq<T>)
    ensures xs == [] <==> Elements(xs) == {}
  {
    if xs != [] {
      assert xs[0] in Elements(xs);
    }
  }

  /** Two strictly sorted listings of the same set are the same listing:
      the order determines the result uniquely. */
  lemma {:induction false} SortedUnique<T>(lt: (T, T) -> bool, xs: seq<T>, ys: seq<T>)
    requires Elements(xs) == Elements(ys)
    requires StrictTotalOn(lt, Elements(xs))
    requires SortedBy(lt, xs) && SortedBy(lt, ys)
    ensures xs == ys
    decreases |xs|
  {
    EmptyElements(xs);
    EmptyElements(ys);
    if xs != [] {
      SortedHead(lt, xs);
      SortedHead(lt, ys);
      LeastUnique(lt, xs[0], ys[0], Elements(xs));
      SortedUnique(lt, xs[1..], ys[1..]);
      assert xs == [xs[0]] + xs[1..] && ys == [ys[0]] + ys[1..];
    }
  }

  /** Re-sorting a strictly sorted listing under an order that agrees with
      its own leaves it unchanged. */
  lemma ResortIsIdentity<T>(lt: (T, T) -> bool, xs: seq<T>)
    requires StrictTotalOn(lt, Elements(xs)) && SortedBy(lt, xs)
    ensures SortSet(lt, Elements(xs)) == xs
  {
    SortedUnique(lt, SortSet(lt, Elements(xs)), xs);
  }

  /** Two orders that agree on the elements of `s`. */
  predicate AgreeOn<T(==)>(lt1: (T, T) -> bool, lt2: (T, T) -> bool, s: set<T>) {
    forall a, b :: a in s && b in s ==> lt1(a, b) == lt2(a, b)
  }

  lemma AgreeSorted<T>(lt1: (T, T) -> bool, lt2: (T, T) -> bool, xs: seq<T>)
    requires AgreeOn(lt1, lt2, Elements(xs)) && SortedBy(lt1, xs)
    ensures SortedBy(lt2, xs)
  {
    forall i, j | 0 <= i < j < |xs| ensures lt2(xs[i], xs[j]) {
      assert xs[i] in Elements(xs) && xs[j] in Elements(xs);
    }
  }

  /** Orders that agree on a set sort it the same way. */
  lemma AgreeSortSet<T>(lt1: (T, T) -> bool, lt2: (T, T) -> bool, s: set<T>)
    requires StrictTotalOn(lt1, s) && AgreeOn(lt1, lt2, s)
    ensures StrictTotalOn(lt2, s)
    ensures SortSet(lt1, s) == SortSet(lt2, s)
  {
    var xs := SortSet(lt1, s);
    AgreeSorted(lt1, lt2, xs);
    SortedUnique(lt2, xs, SortSet(lt2, s));
  }

  /** A prefix of a sorted listing is sorted. */
  lemma PrefixSorted<T>(lt: (T, T) -> bool, xs: seq<T>, n: nat)
    requires SortedBy(lt, xs) && n <= |xs|
    ensures SortedBy(lt, xs[..n])
  {
  }

  /** SQL `LIMIT n`: a negative limit means no limit (SQLite). */
  function Take<T>(xs: seq<T>, limit: int): (r: seq<T>)
    ensures limit < 0 ==> r == xs
    ensures 0 <= limit ==> |r| == if limit < |xs| then limit else |xs|
    ensures |r| <= |xs| && r == xs[..|r|]
  {
    if limit < 0 || limit >= |xs| then xs else xs[..limit]
  }

  /** A prefix of a sorted sequence comes before everything left out. */
  lemma TakeBeforeRest<T>(lt: (T, T) -> bool, xs: seq<T>, limit: int)
    requires SortedBy(lt, xs)
    ensures SortedBy(lt, Take(xs, limit)) && Elements(Take(xs, limit)) <= Elements(xs)
    ensures forall t, i :: t in Elements(xs) && t !in Elements(Take(xs, limit)) && 0 <= i < |Take(xs, limit)| ==>
      lt(Take(xs, limit)[i], t)
  {
    var r := Take(xs, limit);
    forall t, i | t in Elements(xs) && t !in Elements(r) && 0 <= i < |r| ensures lt(r[i], t) {
      var j :| 0 <= j < |xs| && xs[j] == t;
      if j < |r| {
        assert false;
      }
      assert xs[i] == r[i];
    }
    assert forall x :: x in r ==> x in xs;
  }

  /** Strictly ascending integers. */
  predicate Increasing(xs: seq<int>) {
    forall i, j :: 0 <= i < j < |xs| ==> xs[i] < xs[j]
  }

  /** `ids.sort((a, b) => a - b)` on distinct ids: the ascending listing. */
  function Ascending(s: set<int>): (r: seq<int>)
    ensures |r| == |s| && Elements(r) == s
    ensures Increasing(r)
  {
    var lt := (a: int, b: int) => a < b;
    assert StrictTotalOn(lt, s);
    SortSet(lt, s)
  }

  /** An ascending listing is the only one of its set. */
  lemma AscendingUnique(xs: seq<int>)
    requires Increasing(xs)
    ensures Ascending(Elements(xs)) == xs
  {
    var lt := (a: int, b: int) => a < b;
    assert StrictTotalOn(lt, Elements(xs));
    SortedUnique(lt, Ascending(Elements(xs)), xs);
  }
}
