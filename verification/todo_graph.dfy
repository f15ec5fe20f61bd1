/** The dependency graph view of the dashboard (`graph-mapper.ts`): the
    column of every todo by longest-path levelling (Kahn's algorithm over
    the dependencies whose two ends are shown), the lane a todo is grouped
    in, and the edge list and horizontal positions handed to the graph
    widget. Pixel layout beyond the column rule is not part of this model. */
module TodoGraph {
  import opened Wrappers
  import opened Text
  import opened Closure
  import opened Sorting
  import opened Lists

  datatype Dependency = Dependency(successorId: int, predecessorId: int)

  // ---------------------------------------------------------------------------
  // The dependencies that take part

  /** Both ends are among the todos shown. */
  predicate Kept(ids: set<int>, d: Dependency) {
    d.predecessorId in ids && d.successorId in ids
  }

  /** The kept dependencies as pairs (predecessor, successor). */
  function KeptRel(ids: set<int>, ds: seq<Dependency>): (r: Rel)
    ensures forall d :: d in ds && Kept(ids, d) ==> (d.predecessorId, d.successorId) in r
  {
    set d | d in ds && Kept(ids, d) :: (d.predecessorId, d.successorId)
  }

  /** No kept dependency ends at `x`. */
  predicate NoIncoming(ids: set<int>, ds: seq<Dependency>, x: int) {
    forall d :: d in ds && Kept(ids, d) ==> d.successorId != x
  }

  /** `outgoing.get(c)` once every dependency has been read: the successors
      of `c`, in the order of the list, once per kept dependency. */
  function Outs(ids: set<int>, ds: seq<Dependency>, c: int): seq<int>
    decreases |ds|
  {
    if ds == [] then []
    else
      var d := ds[|ds| - 1];
      Outs(ids, ds[..|ds| - 1], c) + (if Kept(ids, d) && d.predecessorId == c then [d.successorId] else [])
  }

  /** The kept dependencies into `x` whose predecessor is not in `done`. */
  function InCount(ids: set<int>, ds: seq<Dependency>, x: int, done: set<int>): nat
    decreases |ds|
  {
    if ds == [] then 0
    else
      var d := ds[|ds| - 1];
      InCount(ids, ds[..|ds| - 1], x, done) + (if Kept(ids, d) && d.successorId == x && d.predecessorId !in done then 1 else 0)
  }

  lemma InPrefix(ds: seq<Dependency>, d: Dependency)
    requires ds != [] && d in ds && d != ds[|ds| - 1]
    ensures d in ds[..|ds| - 1]
  {
    var i :| 0 <= i < |ds| && ds[i] == d;
    assert ds[..|ds| - 1][i] == d;
  }

  lemma {:induction false} OutsWitness(ids: set<int>, ds: seq<Dependency>, c: int, y: int) returns (d: Dependency)
    requires y in Outs(ids, ds, c)
    ensures d in ds && Kept(ids, d) && d.predecessorId == c && d.successorId == y
    decreases |ds|
  {
    var init := ds[..|ds| - 1];
    if y in Outs(ids, init, c) {
      d := OutsWitness(ids, init, c, y);
      assert forall e :: e in init ==> e in ds;
    } else {
      d := ds[|ds| - 1];
    }
  }

  /** Every kept dependency of `c` is among its outgoing successors. */
  lemma {:induction false} OutsHas(ids: set<int>, ds: seq<Dependency>, d: Dependency)
    requires d in ds && Kept(ids, d)
    ensures d.successorId in Outs(ids, ds, d.predecessorId)
    decreases |ds|
  {
    if ds[|ds| - 1] != d {
      InPrefix(ds, d);
      OutsHas(ids, ds[..|ds| - 1], d);
    }
  }

  /** The successors of a shown todo are shown and have an incoming edge. */
  lemma OutsShown(ids: set<int>, ds: seq<Dependency>, c: int)
    ensures forall y :: y in Outs(ids, ds, c) ==> y in ids && !NoIncoming(ids, ds, y)
  {
    forall y | y in Outs(ids, ds, c) ensures y in ids && !NoIncoming(ids, ds, y) {
      var d := OutsWitness(ids, ds, c, y);
    }
  }

  lemma OutShown(ids: set<int>, ds: seq<Dependency>, c: int, k: int)
    requires 0 <= k < |Outs(ids, ds, c)|
    ensures Outs(ids, ds, c)[k] in ids && !NoIncoming(ids, ds, Outs(ids, ds, c)[k])
  {
    OutsShown(ids, ds, c);
    assert Outs(ids, ds, c)[k] in Outs(ids, ds, c);
  }

  lemma {:induction false} InCountWitness(ids: set<int>, ds: seq<Dependency>, x: int, done: set<int>) returns (d: Dependency)
    requires InCount(ids, ds, x, done) > 0
    ensures d in ds && Kept(ids, d) && d.successorId == x && d.predecessorId !in done
    decreases |ds|
  {
    var init := ds[..|ds| - 1];
    if InCount(ids, init, x, done) > 0 {
      d := InCountWitness(ids, init, x, done);
      assert forall e :: e in init ==> e in ds;
    } else {
      d := ds[|ds| - 1];
    }
  }

  /** Finishing `c` removes from the count of `x` exactly the edges from `c`. */
  lemma {:induction false} InCountSplit(ids: set<int>, ds: seq<Dependency>, x: int, done: set<int>, c: int)
    requires c !in done
    ensures InCount(ids, ds, x, done) == InCount(ids, ds, x, done + {c}) + multiset(Outs(ids, ds, c))[x]
    decreases |ds|
  {
    if ds != [] {
      InCountSplit(ids, ds[..|ds| - 1], x, done, c);
    }
  }

  /** The element of `u` that reaches the most. */
  lemma {:induction false} MostReaching(rel: Rel, u: set<int>) returns (m: int)
    requires u != {}
    ensures m in u && forall x :: x in u ==> |Reach(rel, x)| <= |Reach(rel, m)|
    decreases |u|
  {
    NonEmpty(u);
    var y :| y in u;
    if u == {y} {
      m := y;
    } else {
      var n := MostReaching(rel, u - {y});
      m := if |Reach(rel, y)| <= |Reach(rel, n)| then n else y;
    }
  }

  /** Without a cycle, when every todo not done still waits for one that is
      not done, every todo is done. */
  lemma AllDone(ids: set<int>, ds: seq<Dependency>, done: set<int>)
    requires done <= ids && Acyclic(KeptRel(ids, ds))
    requires forall x :: x in ids && x !in done ==> InCount(ids, ds, x, done) > 0
    ensures done == ids
  {
    if !(ids <= done) {
      NotSubset(ids, done);
      var y :| y in ids && y !in done;
      assert y in ids - done;
      var m := MostReaching(KeptRel(ids, ds), ids - done);
      var d := InCountWitness(ids, ds, m, done);
      StepShrinks(KeptRel(ids, ds), d.predecessorId, m);
      assert false;
    }
  }

  // ---------------------------------------------------------------------------
  // The start queue

  function DegreeOf(indegree: map<int, int>, x: int): int {
    if x in indegree then indegree[x] else 0
  }

  lemma ConsDistinct(xs: seq<int>, rest: seq<int>)
    requires xs != [] && forall x :: x in rest ==> x in xs[1..]
    requires Distinct(xs[1..]) ==> Distinct(rest)
    ensures Distinct(xs) ==> Distinct([xs[0]] + rest)
  {
    HeadNotInTail(xs);
    if Distinct(xs) {
      DistinctConcat([xs[0]], rest);
    }
  }

  /** `todos.filter((todo) => (indegree.get(todo.id) ?? 0) === 0)`. */
  function ZeroIn(xs: seq<int>, indegree: map<int, int>): (r: seq<int>)
    ensures forall x :: x in r <==> x in xs && DegreeOf(indegree, x) == 0
    ensures Distinct(xs) ==> Distinct(r)
  {
    if xs == [] then []
    else
      var rest := ZeroIn(xs[1..], indegree);
      if DegreeOf(indegree, xs[0]) == 0 then
        ConsDistinct(xs, rest);
        [xs[0]] + rest
      else rest
  }

  predicate NonDecreasing(xs: seq<int>) {
    forall i, j :: 0 <= i < j < |xs| ==> xs[i] <= xs[j]
  }

  /** Everything of a permutation of `ys1` plus `x` is above a bound of both. */
  lemma AllAbove(b: int, rest: seq<int>, ys1: seq<int>, x: int)
    requires multiset(rest) == multiset(ys1) + multiset{x}
    ensures b <= x && (forall i :: 0 <= i < |ys1| ==> b <= ys1[i]) ==> forall k :: 0 <= k < |rest| ==> b <= rest[k]
    ensures b < x && (forall i :: 0 <= i < |ys1| ==> b < ys1[i]) ==> forall k :: 0 <= k < |rest| ==> b < rest[k]
  {
    forall k | 0 <= k < |rest| ensures rest[k] == x || exists i :: 0 <= i < |ys1| && ys1[i] == rest[k] {
      assert rest[k] in multiset(rest);
      if rest[k] != x {
        assert rest[k] in multiset(ys1);
        assert rest[k] in ys1;
      }
    }
  }

  lemma ConsSorted(b: int, rest: seq<int>)
    requires forall k :: 0 <= k < |rest| ==> b <= rest[k]
    ensures NonDecreasing(rest) ==> NonDecreasing([b] + rest)
    ensures Increasing(rest) && (forall k :: 0 <= k < |rest| ==> b < rest[k]) ==> Increasing([b] + rest)
  {
    var r := [b] + rest;
    assert forall j :: 0 < j < |r| ==> r[j] == rest[j - 1];
  }

  function Insert(x: int, ys: seq<int>): (r: seq<int>)
    requires NonDecreasing(ys)
    ensures NonDecreasing(r) && multiset(r) == multiset(ys) + multiset{x}
    ensures Increasing(ys) && x !in ys ==> Increasing(r)
  {
    if ys == [] || x <= ys[0] then
      ConsSorted(x, ys);
      [x] + ys
    else
      assert ys == [ys[0]] + ys[1..];
      var rest := Insert(x, ys[1..]);
      InsertBehind(ys[0], ys[1..], rest, x);
      [ys[0]] + rest
  }

  /** Inserting behind a head that is below `x`: the head stays in front. */
  lemma InsertBehind(h: int, t: seq<int>, rest: seq<int>, x: int)
    requires NonDecreasing([h] + t) && h < x
    requires NonDecreasing(rest) && multiset(rest) == multiset(t) + multiset{x}
    requires Increasing(t) && x !in t ==> Increasing(rest)
    ensures NonDecreasing([h] + rest) && multiset([h] + rest) == multiset([h] + t) + multiset{x}
    ensures Increasing([h] + t) && x !in [h] + t ==> Increasing([h] + rest)
  {
    HeadBelowTail(h, t);
    AllAbove(h, rest, t, x);
    ConsSorted(h, rest);
    assert multiset([h] + rest) == multiset{h} + multiset(rest);
    assert multiset([h] + t) == multiset{h} + multiset(t);
    if Increasing([h] + t) && x !in [h] + t {
      IncreasingTail(h, t);
    }
  }

  lemma HeadBelowTail(h: int, t: seq<int>)
    requires NonDecreasing([h] + t)
    ensures forall i :: 0 <= i < |t| ==> h <= t[i]
    ensures Increasing([h] + t) ==> forall i :: 0 <= i < |t| ==> h < t[i]
  {
    var ys := [h] + t;
    forall i | 0 <= i < |t| ensures h <= t[i] && (Increasing(ys) ==> h < t[i]) {
      assert ys[0] == h && ys[i + 1] == t[i];
    }
  }

  lemma IncreasingTail(h: int, t: seq<int>)
    requires Increasing([h] + t)
    ensures Increasing(t)
  {
    var ys := [h] + t;
    assert forall i :: 0 <= i < |t| ==> t[i] == ys[i + 1];
  }

  /** `.sort((a, b) => a.id - b.id)` on ids: a sorted permutation. */
  function SortIds(xs: seq<int>): (r: seq<int>)
    ensures NonDecreasing(r) && multiset(r) == multiset(xs)
    ensures Distinct(xs) ==> Increasing(r)
  {
    if xs == [] then []
    else
      var rest := SortIds(xs[1..]);
      FreshHead(xs, rest);
      Insert(xs[0], rest)
  }

  lemma FreshHead(xs: seq<int>, rest: seq<int>)
    requires xs != [] && multiset(rest) == multiset(xs[1..])
    ensures multiset(xs) == multiset(rest) + multiset{xs[0]}
    ensures Distinct(xs) ==> xs[0] !in rest && Distinct(xs[1..])
  {
    assert xs == [xs[0]] + xs[1..];
    HeadNotInTail(xs);
    if Distinct(xs) {
      assert xs[0] !in multiset(xs[1..]);
    }
  }

  lemma IncreasingDistinct(xs: seq<int>)
    requires Increasing(xs)
    ensures Distinct(xs)
  {
  }

  // ---------------------------------------------------------------------------
  // Levels

  /** The ids with a positive count, the measure of the work left. */
  function Positive(m: map<int, int>): set<int> {
    set x | x in m && m[x] > 0
  }

  lemma PositiveDecrement(m: map<int, int>, x: int)
    requires x in m
    ensures m[x] == 1 ==> Positive(m[x := m[x] - 1]) == Positive(m) - {x} && x in Positive(m)
    ensures m[x] != 1 ==> Positive(m[x := m[x] - 1]) == Positive(m)
  {
  }

  function Max(a: int, b: int): int {
    if a >= b then a else b
  }

  /** The first two loops of `computeLevels`: every shown todo gets an
      empty successor list, count 0 and level 0, then every kept dependency
      appends its successor to its predecessor's list and counts one more
      for its successor. */
  method Adjacency(ids: seq<int>, ds: seq<Dependency>)
    returns (outgoing: map<int, seq<int>>, indegree: map<int, int>, level: map<int, int>)
    ensures outgoing.Keys == indegree.Keys == level.Keys == Elements(ids)
    ensures forall x :: x in Elements(ids) ==>
      outgoing[x] == Outs(Elements(ids), ds, x) && indegree[x] == InCount(Elements(ids), ds, x, {}) && level[x] == 0
  {
    var s := Elements(ids);
    outgoing, indegree, level := map[], map[], map[];
    for i := 0 to |ids|
      invariant outgoing.Keys == indegree.Keys == level.Keys == Elements(ids[..i])
      invariant forall x :: x in outgoing ==> outgoing[x] == [] && indegree[x] == 0 && level[x] == 0
    {
      assert ids[..i + 1] == ids[..i] + [ids[i]];
      outgoing := outgoing[ids[i] := []];
      indegree := indegree[ids[i] := 0];
      level := level[ids[i] := 0];
    }
    assert ids[..|ids|] == ids;
    for j := 0 to |ds|
      invariant outgoing.Keys == indegree.Keys == level.Keys == s
      invariant forall x :: x in s ==> outgoing[x] == Outs(s, ds[..j], x) && indegree[x] == InCount(s, ds[..j], x, {}) && level[x] == 0
    {
      var d := ds[j];
      assert ds[..j + 1][..j] == ds[..j];
      if d.predecessorId in s && d.successorId in s {
        outgoing := outgoing[d.predecessorId := outgoing[d.predecessorId] + [d.successorId]];
        indegree := indegree[d.successorId := DegreeOf(indegree, d.successorId) + 1];
      }
    }
    assert ds[..|ds|] == ds;
  }

  /** What holds on every input: levels are non-negative, and stay 0 for a
      todo no kept dependency ends at. */
  predicate Sane(s: set<int>, ds: seq<Dependency>, level: map<int, int>, indegree: map<int, int>, queue: seq<int>) {
    level.Keys == s && indegree.Keys == s &&
    (forall x :: x in level ==> level[x] >= 0) &&
    (forall x :: x in level && NoIncoming(s, ds, x) ==> level[x] == 0) &&
    (forall x :: x in queue ==> x in s)
  }

  /** Every kept dependency out of a finished todo is respected. */
  predicate Ordered(s: set<int>, ds: seq<Dependency>, done: set<int>, level: map<int, int>)
    requires level.Keys == s
  {
    forall d :: d in ds && Kept(s, d) && d.predecessorId in done ==> level[d.successorId] >= level[d.predecessorId] + 1
  }

  /** Kahn's invariant between two todos taken from the queue (on distinct
      ids): the count of a todo is the number of its kept dependencies
      from unfinished todos, and a todo is finished or queued exactly when
      that count is 0. */
  predicate Between(s: set<int>, ds: seq<Dependency>, done: set<int>, level: map<int, int>, indegree: map<int, int>, queue: seq<int>) {
    level.Keys == s && indegree.Keys == s && done <= s &&
    Distinct(queue) && (forall x :: x in queue ==> x in s && x !in done) &&
    (forall x :: x in s ==> indegree[x] == InCount(s, ds, x, done)) &&
    (forall x :: x in s ==> (x in done || x in queue <==> indegree[x] == 0)) &&
    Ordered(s, ds, done, level)
  }

  /** The same while the successors of `c` are being relaxed. */
  predicate Relaxing(s: set<int>, ds: seq<Dependency>, done: set<int>, c: int, outs: seq<int>, k: int,
                     level: map<int, int>, indegree: map<int, int>, queue: seq<int>, cl: int)
    requires 0 <= k <= |outs|
  {
    level.Keys == s && indegree.Keys == s && done <= s && c in s && c !in done && c !in queue &&
    Distinct(queue) && (forall x :: x in queue ==> x in s && x !in done) &&
    (forall x :: x in s ==> indegree[x] == InCount(s, ds, x, done + {c}) + multiset(outs[k..])[x]) &&
    (forall x :: x in s ==> (x in done || x == c || x in queue <==> indegree[x] == 0)) &&
    Ordered(s, ds, done, level) && level[c] == cl &&
    (forall i :: 0 <= i < k ==> outs[i] in s && level[outs[i]] >= cl + 1)
  }

  lemma StartRelaxing(s: set<int>, ds: seq<Dependency>, done: set<int>, c: int, level: map<int, int>, indegree: map<int, int>, queue: seq<int>)
    requires Between(s, ds, done, level, indegree, [c] + queue)
    ensures Relaxing(s, ds, done, c, Outs(s, ds, c), 0, level, indegree, queue, level[c])
  {
    forall x | x in s
      ensures InCount(s, ds, x, done) == InCount(s, ds, x, done + {c}) + multiset(Outs(s, ds, c))[x]
    {
      InCountSplit(s, ds, x, done, c);
    }
    assert Outs(s, ds, c)[0..] == Outs(s, ds, c);
    var q := [c] + queue;
    assert q[0] == c && q[1..] == queue;
    HeadNotInTail(q);
    assert forall x :: x in queue ==> x in q;
  }

  lemma EndRelaxing(s: set<int>, ds: seq<Dependency>, done: set<int>, c: int, level: map<int, int>, indegree: map<int, int>, queue: seq<int>)
    requires c in level
    requires Relaxing(s, ds, done, c, Outs(s, ds, c), |Outs(s, ds, c)|, level, indegree, queue, level[c])
    ensures Between(s, ds, done + {c}, level, indegree, queue)
  {
    var outs := Outs(s, ds, c);
    forall d | d in ds && Kept(s, d) && d.predecessorId in done + {c}
      ensures level[d.successorId] >= level[d.predecessorId] + 1
    {
      if d.predecessorId == c {
        OutsHas(s, ds, d);
        var i :| 0 <= i < |outs| && outs[i] == d.successorId;
      }
    }
  }

  /** The inner loop of `computeLevels` for the todo `c` just taken from the
      queue: each successor moves to at least one level past `c`, loses one
      from its count, and is queued when the count reaches 0. */
  method Relax(s: set<int>, ds: seq<Dependency>, c: int, level: map<int, int>, indegree: map<int, int>, queue: seq<int>,
               ghost done: set<int>, ghost tracking: bool)
    returns (level': map<int, int>, indegree': map<int, int>, queue': seq<int>)
    requires c in s && Sane(s, ds, level, indegree, queue)
    requires tracking ==> Between(s, ds, done, level, indegree, [c] + queue)
    ensures Sane(s, ds, level', indegree', queue')
    ensures |Positive(indegree')| + |queue'| == |Positive(indegree)| + |queue|
    ensures tracking ==> Between(s, ds, done + {c}, level', indegree', queue')
  {
    var outs := Outs(s, ds, c);
    var cl := level[c];
    assert cl >= 0;
    if tracking {
      StartRelaxing(s, ds, done, c, level, indegree, queue);
    }
    level', indegree', queue' := level, indegree, queue;
    for k := 0 to |outs|
      invariant Sane(s, ds, level', indegree', queue')
      invariant |Positive(indegree')| + |queue'| == |Positive(indegree)| + |queue|
      invariant tracking ==> Relaxing(s, ds, done, c, outs, k, level', indegree', queue', cl)
    {
      OutShown(s, ds, c, k);
      level', indegree', queue' := RelaxOne(s, ds, c, outs, k, level', indegree', queue', cl, done, tracking);
    }
    if tracking {
      assert outs[|outs|..] == [];
      EndRelaxing(s, ds, done, c, level', indegree', queue');
    }
  }

  /** One pass of the inner loop: `outs[k]` moves to at least one level
      past `c`, loses one from its count, and is queued when the count
      reaches 0. */
  method RelaxOne(s: set<int>, ds: seq<Dependency>, c: int, outs: seq<int>, k: int,
                  level: map<int, int>, indegree: map<int, int>, queue: seq<int>, cl: int,
                  ghost done: set<int>, ghost tracking: bool)
    returns (level': map<int, int>, indegree': map<int, int>, queue': seq<int>)
    requires 0 <= k < |outs| && outs[k] in s && !NoIncoming(s, ds, outs[k]) && cl >= 0
    requires Sane(s, ds, level, indegree, queue)
    requires tracking ==> Relaxing(s, ds, done, c, outs, k, level, indegree, queue, cl)
    ensures Sane(s, ds, level', indegree', queue')
    ensures |Positive(indegree')| + |queue'| == |Positive(indegree)| + |queue|
    ensures tracking ==> Relaxing(s, ds, done, c, outs, k + 1, level', indegree', queue', cl)
  {
    var next := outs[k];
    var nextDegree := indegree[next] - 1;
    level' := level[next := Max(level[next], cl + 1)];
    indegree' := indegree[next := nextDegree];
    queue' := if nextDegree == 0 then queue + [next] else queue;
    RelaxSane(s, ds, level, indegree, queue, next, cl, level', indegree', queue');
    if tracking {
      RelaxStep(s, ds, done, c, outs, k, level, indegree, queue, cl, level', indegree', queue');
    }
  }

  /** Relaxing one successor keeps the maps total and the levels sound,
      and moves the successor from the waiting counts to the queue exactly
      when its count reaches 0. */
  lemma RelaxSane(s: set<int>, ds: seq<Dependency>, level: map<int, int>, indegree: map<int, int>, queue: seq<int>,
                  next: int, cl: int, level': map<int, int>, indegree': map<int, int>, queue': seq<int>)
    requires Sane(s, ds, level, indegree, queue) && next in s && !NoIncoming(s, ds, next) && cl >= 0
    requires level' == level[next := Max(level[next], cl + 1)]
    requires indegree' == indegree[next := indegree[next] - 1]
    requires queue' == if indegree[next] - 1 == 0 then queue + [next] else queue
    ensures Sane(s, ds, level', indegree', queue')
    ensures |Positive(indegree')| + |queue'| == |Positive(indegree)| + |queue|
  {
    PositiveDecrement(indegree, next);
  }

  /** One successor relaxed keeps the invariant. */
  lemma RelaxStep(s: set<int>, ds: seq<Dependency>, done: set<int>, c: int, outs: seq<int>, k: int,
                  level: map<int, int>, indegree: map<int, int>, queue: seq<int>, cl: int,
                  level': map<int, int>, indegree': map<int, int>, queue': seq<int>)
    requires 0 <= k < |outs| && outs[k] in s
    requires Relaxing(s, ds, done, c, outs, k, level, indegree, queue, cl)
    requires level' == level[outs[k] := Max(level[outs[k]], cl + 1)]
    requires indegree' == indegree[outs[k] := indegree[outs[k]] - 1]
    requires queue' == if indegree[outs[k]] - 1 == 0 then queue + [outs[k]] else queue
    ensures Relaxing(s, ds, done, c, outs, k + 1, level', indegree', queue', cl)
  {
    RelaxQueue(s, ds, done, c, outs, k, indegree, queue, indegree', queue');
    RelaxOrdered(s, ds, done, level, outs[k], Max(level[outs[k]], cl + 1));
    RelaxLevels(s, outs, k, level, cl);
    RelaxingIntro(s, ds, done, c, outs, k + 1, level', indegree', queue', cl);
  }

  /** The counts and the queue after relaxing `outs[k]`: the successor
      loses one from its count and joins the queue when that reaches 0. */
  lemma RelaxQueue(s: set<int>, ds: seq<Dependency>, done: set<int>, c: int, outs: seq<int>, k: int,
                   indegree: map<int, int>, queue: seq<int>, indegree': map<int, int>, queue': seq<int>)
    requires 0 <= k < |outs| && outs[k] in s && indegree.Keys == s && c !in queue
    requires Distinct(queue) && forall x :: x in queue ==> x in s && x !in done
    requires forall x :: x in s ==> indegree[x] == InCount(s, ds, x, done + {c}) + multiset(outs[k..])[x]
    requires forall x :: x in s ==> (x in done + {c} || x in queue <==> indegree[x] == 0)
    requires indegree' == indegree[outs[k] := indegree[outs[k]] - 1]
    requires queue' == if indegree[outs[k]] - 1 == 0 then queue + [outs[k]] else queue
    ensures outs[k] !in done && indegree'.Keys == s && c !in queue'
    ensures Distinct(queue') && forall x :: x in queue' ==> x in s && x !in done
    ensures forall x :: x in s ==> indegree'[x] == InCount(s, ds, x, done + {c}) + multiset(outs[k + 1..])[x]
    ensures forall x :: x in s ==> (x in done + {c} || x in queue' <==> indegree'[x] == 0)
  {
    var next := outs[k];
    assert outs[k..] == [next] + outs[k + 1..];
    assert indegree[next] >= 1;
    assert next !in done && next != c && next !in queue;
    if indegree[next] - 1 == 0 {
      DistinctConcat(queue, [next]);
    }
    RelaxCounts(s, ds, done + {c}, outs, k, indegree);
    RelaxZeros(s, done + {c}, queue, indegree, next);
  }

  /** `Relaxing` from its parts. */
  lemma RelaxingIntro(s: set<int>, ds: seq<Dependency>, done: set<int>, c: int, outs: seq<int>, k: int,
                      level: map<int, int>, indegree: map<int, int>, queue: seq<int>, cl: int)
    requires 0 <= k <= |outs|
    requires level.Keys == s && indegree.Keys == s && done <= s && c in s && c !in done && c !in queue
    requires Distinct(queue) && forall x :: x in queue ==> x in s && x !in done
    requires forall x :: x in s ==> indegree[x] == InCount(s, ds, x, done + {c}) + multiset(outs[k..])[x]
    requires forall x :: x in s ==> (x in done + {c} || x in queue <==> indegree[x] == 0)
    requires Ordered(s, ds, done, level) && level[c] == cl
    requires forall i :: 0 <= i < k ==> outs[i] in s && level[outs[i]] >= cl + 1
    ensures Relaxing(s, ds, done, c, outs, k, level, indegree, queue, cl)
  {
  }

  /** Relaxing `outs[k]` takes one from its count: the counts then account
      for the successors still to relax. */
  lemma RelaxCounts(s: set<int>, ds: seq<Dependency>, finished: set<int>, outs: seq<int>, k: int, indegree: map<int, int>)
    requires 0 <= k < |outs| && outs[k] in s && indegree.Keys == s
    requires forall x :: x in s ==> indegree[x] == InCount(s, ds, x, finished) + multiset(outs[k..])[x]
    ensures forall x :: x in s ==>
      indegree[outs[k] := indegree[outs[k]] - 1][x] == InCount(s, ds, x, finished) + multiset(outs[k + 1..])[x]
  {
    assert outs[k..] == [outs[k]] + outs[k + 1..];
  }

  /** A count that drops to 0 queues its todo, so "finished or queued
      exactly when the count is 0" still holds. */
  lemma RelaxZeros(s: set<int>, finished: set<int>, queue: seq<int>, indegree: map<int, int>, next: int)
    requires indegree.Keys == s && next in s && next !in finished && next !in queue && indegree[next] >= 1
    requires forall x :: x in s ==> (x in finished || x in queue <==> indegree[x] == 0)
    ensures var indegree' := indegree[next := indegree[next] - 1];
      var queue' := if indegree[next] - 1 == 0 then queue + [next] else queue;
      forall x :: x in s ==> (x in finished || x in queue' <==> indegree'[x] == 0)
  {
  }

  /** The successors relaxed so far, `outs[k]` included, sit past `c`. */
  lemma RelaxLevels(s: set<int>, outs: seq<int>, k: int, level: map<int, int>, cl: int)
    requires 0 <= k < |outs| && outs[k] in s && level.Keys == s
    requires forall i :: 0 <= i < k ==> outs[i] in s && level[outs[i]] >= cl + 1
    ensures var level' := level[outs[k] := Max(level[outs[k]], cl + 1)];
      forall i :: 0 <= i < k + 1 ==> outs[i] in s && level'[outs[i]] >= cl + 1
  {
  }

  /** Raising the level of an unfinished todo keeps the finished ones' order. */
  lemma RelaxOrdered(s: set<int>, ds: seq<Dependency>, done: set<int>, level: map<int, int>, next: int, v: int)
    requires level.Keys == s && next in s && next !in done && v >= level[next]
    requires Ordered(s, ds, done, level)
    ensures Ordered(s, ds, done, level[next := v])
  {
  }

  /** `computeLevels(todos, dependencies)`, on the ids of the todos: every
      todo gets a level, 0 unless a kept dependency pushes it further; on
      distinct ids and kept dependencies without a cycle, every successor
      sits at least one level past each of its predecessors. It stops on
      every input, cycles included: a todo is queued again only when its
      remaining count drops from 1 to 0. */
  method ComputeLevels(ids: seq<int>, ds: seq<Dependency>) returns (level: map<int, int>)
    ensures level.Keys == Elements(ids)
    ensures forall x :: x in level ==> level[x] >= 0
    ensures forall x :: x in level && NoIncoming(Elements(ids), ds, x) ==> level[x] == 0
    ensures Distinct(ids) && Acyclic(KeptRel(Elements(ids), ds)) ==>
      forall d :: d in ds && Kept(Elements(ids), d) ==> level[d.successorId] >= level[d.predecessorId] + 1
  {
    var s := Elements(ids);
    var outgoing, indegree;
    outgoing, indegree, level := Adjacency(ids, ds);
    var queue := SortIds(ZeroIn(ids, indegree));
    QueueStart(s, ds, ids, level, indegree, queue);
    ghost var done;
    level, done := Drain(s, ds, level, indegree, queue, Distinct(ids));
    if Distinct(ids) && Acyclic(KeptRel(s, ds)) {
      Finish(s, ds, done, level);
    }
  }

  /** The while loop of `computeLevels`: take the head of the queue and
      relax its successors until the queue is empty. */
  method Drain(s: set<int>, ds: seq<Dependency>, level0: map<int, int>, indegree0: map<int, int>, queue0: seq<int>, ghost tracking: bool)
    returns (level: map<int, int>, ghost done: set<int>)
    requires Sane(s, ds, level0, indegree0, queue0)
    requires tracking ==> Between(s, ds, {}, level0, indegree0, queue0)
    ensures level.Keys == s
    ensures forall x :: x in level ==> level[x] >= 0
    ensures forall x :: x in level && NoIncoming(s, ds, x) ==> level[x] == 0
    ensures tracking ==> exists indegree :: Between(s, ds, done, level, indegree, [])
  {
    var indegree, queue := indegree0, queue0;
    level, done := level0, {};
    while queue != []
      invariant Sane(s, ds, level, indegree, queue)
      invariant tracking ==> Between(s, ds, done, level, indegree, queue)
      decreases |Positive(indegree)| + |queue|
    {
      var current := queue[0];
      assert queue == [current] + queue[1..];
      level, indegree, queue := Relax(s, ds, current, level, indegree, queue[1..], done, tracking);
      done := done + {current};
    }
  }

  /** With the queue empty and no cycle, every todo is finished. */
  lemma Finish(s: set<int>, ds: seq<Dependency>, done: set<int>, level: map<int, int>)
    requires (exists indegree :: Between(s, ds, done, level, indegree, [])) && Acyclic(KeptRel(s, ds))
    ensures forall d :: d in ds && Kept(s, d) ==> level[d.successorId] >= level[d.predecessorId] + 1
  {
    var indegree :| Between(s, ds, done, level, indegree, []);
    forall x | x in s && x !in done
      ensures InCount(s, ds, x, done) > 0
    {
      assert indegree[x] != 0;
    }
    AllDone(s, ds, done);
  }

  /** The start queue holds the todos without kept dependencies into them. */
  lemma QueueStart(s: set<int>, ds: seq<Dependency>, ids: seq<int>, level: map<int, int>, indegree: map<int, int>, queue: seq<int>)
    requires s == Elements(ids) && level.Keys == indegree.Keys == s
    requires forall x :: x in s ==> indegree[x] == InCount(s, ds, x, {}) && level[x] == 0
    requires queue == SortIds(ZeroIn(ids, indegree))
    ensures Sane(s, ds, level, indegree, queue)
    ensures Distinct(ids) ==> Between(s, ds, {}, level, indegree, queue)
  {
    var z := ZeroIn(ids, indegree);
    forall x ensures x in queue <==> x in z {
      assert x in queue <==> x in multiset(queue);
      assert x in z <==> x in multiset(z);
    }
    if Distinct(ids) {
      IncreasingDistinct(queue);
    }
  }

  // ---------------------------------------------------------------------------
  // Node columns

  /** Horizontal distance between two levels of the graph. */
  const ColumnWidth := 372

  /** The x coordinate of every todo card: its level times the column width.
      On distinct ids and an acyclic set of kept dependencies every
      successor sits at least one column right of each of its predecessors. */
  method NodeXs(ids: seq<int>, ds: seq<Dependency>) returns (x: map<int, int>)
    ensures x.Keys == Elements(ids)
    ensures forall i :: i in x ==> x[i] >= 0 && x[i] % ColumnWidth == 0
    ensures forall i :: i in x && NoIncoming(Elements(ids), ds, i) ==> x[i] == 0
    ensures Distinct(ids) && Acyclic(KeptRel(Elements(ids), ds)) ==>
      forall d :: d in ds && Kept(Elements(ids), d) ==> x[d.successorId] >= x[d.predecessorId] + ColumnWidth
  {
    var level := ComputeLevels(ids, ds);
    x := map i | i in level :: level[i] * ColumnWidth;
  }

  // ---------------------------------------------------------------------------
  // Edges

  /** The part of a React Flow edge the model keeps: its id and endpoints. */
  datatype FlowEdge = FlowEdge(id: string, source: string, target: string)

  /** The edge id `${predecessorId}->${successorId}`. */
  function EdgeId(d: Dependency): string {
    IntToString(d.predecessorId) + "->" + IntToString(d.successorId)
  }

  function ToFlowEdge(d: Dependency): FlowEdge {
    FlowEdge(EdgeId(d), IntToString(d.predecessorId), IntToString(d.successorId))
  }

  /** The edges of the dependencies with both endpoints shown. */
  function KeptEdges(ids: set<int>, ds: seq<Dependency>): set<FlowEdge> {
    set d | d in ds && Kept(ids, d) :: ToFlowEdge(d)
  }

  /** The edge list: one edge per dependency with both endpoints shown, in
      the order of the dependencies. */
  function FlowEdges(ids: set<int>, ds: seq<Dependency>): (r: seq<FlowEdge>)
    ensures |r| <= |ds|
    ensures forall e :: e in r <==> e in KeptEdges(ids, ds)
  {
    if ds == [] then []
    else
      var rest := FlowEdges(ids, ds[1..]);
      if Kept(ids, ds[0]) then [ToFlowEdge(ds[0])] + rest else rest
  }

  /** The edges keep the order of the dependencies: the edges of a joined
      list are those of its first part followed by those of its second,
      and one dependency gives its own edge when shown and none otherwise. */
  lemma {:induction false} FlowEdgesInOrder(ids: set<int>, a: seq<Dependency>, b: seq<Dependency>)
    ensures FlowEdges(ids, a + b) == FlowEdges(ids, a) + FlowEdges(ids, b)
    ensures forall d :: FlowEdges(ids, [d]) == if Kept(ids, d) then [ToFlowEdge(d)] else []
  {
    if a != [] {
      assert (a + b)[1..] == a[1..] + b;
      FlowEdgesInOrder(ids, a[1..], b);
    } else {
      assert a + b == b;
    }
    forall d ensures FlowEdges(ids, [d]) == if Kept(ids, d) then [ToFlowEdge(d)] else [] {
      assert [d][1..] == [];
    }
  }

  lemma NoArrowInNumber(i: int)
    ensures '>' !in IntToString(i)
  {
  }

  /** Two edge ids agree only for the same predecessor and successor, so
      the edge ids are unique exactly when the dependencies are: the first
      `>` of an id sits right after the predecessor's digits. */
  lemma EdgeIdInjective(a: Dependency, b: Dependency)
    requires EdgeId(a) == EdgeId(b)
    ensures a.predecessorId == b.predecessorId && a.successorId == b.successorId
  {
    var pa, sa := IntToString(a.predecessorId), IntToString(a.successorId);
    var pb, sb := IntToString(b.predecessorId), IntToString(b.successorId);
    NoArrowInNumber(a.predecessorId);
    NoArrowInNumber(b.predecessorId);
    var e := EdgeId(a);
    assert e == pa + "->" + sa;
    assert e == pb + "->" + sb;
    assert e[|pa| + 1] == '>' && e[|pb| + 1] == '>';
    if |pa| != |pb| {
      assert false;
    }
    assert pa == e[..|pa|] == pb;
    assert sa == e[|pa| + 2..] == sb;
    IntToStringInjective(a.predecessorId, b.predecessorId);
    IntToStringInjective(a.successorId, b.successorId);
  }

  // ---------------------------------------------------------------------------
  // Lanes

  /** `todo.tagId ? (tagPathById.get(todo.tagId) ?? '') : ''`: a tag id of 0
      counts as no tag. */
  function TagPathOf(tagId: Option<int>, paths: map<int, string>): string {
    if tagId.Some? && tagId.value != 0 && tagId.value in paths then paths[tagId.value] else ""
  }

  /** `getGroupKey`: the lane a todo is drawn in. Without a selected tag the
      lane is the top-level segment of the todo's tag path; a todo of the
      selected tag goes to "same tag", one below it to the segment just
      under the selection, anything else to its top-level segment. */
  function GroupKey(tagId: Option<int>, paths: map<int, string>, selected: Option<string>): (r: string)
    ensures TagPathOf(tagId, paths) == "" ==> r == "untagged"
    ensures TagPathOf(tagId, paths) != "" && selected.Some? && selected.value == TagPathOf(tagId, paths) ==> r == "same tag"
    ensures TagPathOf(tagId, paths) != "" && !(selected.Some? && selected.value == TagPathOf(tagId, paths)) ==>
      r in Split(TagPathOf(tagId, paths), '/')
    ensures TagPathOf(tagId, paths) != "" && (selected.None? || selected.value == "") ==>
      r == Split(TagPathOf(tagId, paths), '/')[0]
    ensures var path := TagPathOf(tagId, paths);
      path != "" && selected.Some? && selected.value != "" && path != selected.value &&
      StartsWith(path, selected.value + "/") ==>
        |Split(selected.value, '/')| < |Split(path, '/')| &&
        r == Split(path, '/')[|Split(selected.value, '/')|]
    ensures var path := TagPathOf(tagId, paths);
      path != "" && selected.Some? && selected.value != "" && path != selected.value &&
      !StartsWith(path, selected.value + "/") ==>
        r == Split(path, '/')[0]
  {
    var path := TagPathOf(tagId, paths);
    if path == "" then "untagged"
    else if selected.None? || selected.value == "" then FirstSegment(path, '/')
    else if path == selected.value then "same tag"
    else if StartsWith(path, selected.value + "/") then
      DescendantKey(path, selected.value);
      FirstSegment(path[|selected.value| + 1..], '/')
    else FirstSegment(path, '/')
  }

  /** Below the selection `sel`, the lane is the path segment at the depth
      just under `sel`. */
  lemma DescendantSegment(sel: string, rest: string)
    ensures var path := sel + "/" + rest;
      |Split(sel, '/')| < |Split(path, '/')| &&
      FirstSegment(rest, '/') == Split(path, '/')[|Split(sel, '/')|]
  {
    SplitAppend(sel, rest, '/');
    assert sel + "/" + rest == sel + ['/'] + rest;
  }

  lemma DescendantKey(path: string, sel: string)
    requires StartsWith(path, sel + "/")
    ensures |Split(sel, '/')| < |Split(path, '/')|
    ensures FirstSegment(path[|sel| + 1..], '/') == Split(path, '/')[|Split(sel, '/')|]
  {
    var rest := path[|sel| + 1..];
    assert path == sel + "/" + rest;
    DescendantSegment(sel, rest);
  }

  /** A path whose segments are all tag names (lower-case letters and digits). */
  predicate TagPath(p: string) {
    forall i :: 0 <= i < |Split(p, '/')| ==> IsAlnumWord(Split(p, '/')[i])
  }

  /** On tag paths, the lane is "same tag" exactly for todos of the selected
      tag (a tag name cannot contain a space), and "untagged" exactly for
      untagged todos and for tags whose lane segment is named "untagged". */
  lemma SameTagKey(tagId: Option<int>, paths: map<int, string>, selected: Option<string>)
    requires TagPath(TagPathOf(tagId, paths))
    ensures var path := TagPathOf(tagId, paths);
      GroupKey(tagId, paths, selected) == "same tag" <==>
        path != "" && selected.Some? && selected.value != "" && path == selected.value
  {
    var path := TagPathOf(tagId, paths);
    var r := GroupKey(tagId, paths, selected);
    if path != "" && r == "same tag" && !(selected.Some? && selected.value != "" && path == selected.value) {
      var parts := Split(path, '/');
      var i :| 0 <= i < |parts| && parts[i] == r;
      SameTagNotAName();
      assert false;
    }
  }

  /** "same tag" has a space, so no tag is called that. */
  lemma SameTagNotAName()
    ensures !IsAlnumWord("same tag")
  {
    assert !IsLowerAlnum("same tag"[4]);
  }

  /** `getLaneType`: how a lane is coloured. */
  datatype LaneType = SameTagLane | UntaggedLane | DefaultLane

  function LaneOf(key: string): (r: LaneType)
    ensures r.SameTagLane? <==> key == "same tag"
    ensures r.UntaggedLane? <==> key == "untagged"
  {
    if key == "same tag" then SameTagLane
    else if key == "untagged" then UntaggedLane
    else DefaultLane
  }

  /** The lane type of a todo on a tag path: the same-tag colour exactly for
      the selected tag itself, the untagged colour for untagged todos. */
  lemma LaneTypeOfTodo(tagId: Option<int>, paths: map<int, string>, selected: Option<string>)
    requires TagPath(TagPathOf(tagId, paths))
    ensures var path := TagPathOf(tagId, paths);
      var lane := LaneOf(GroupKey(tagId, paths, selected));
      (lane.SameTagLane? <==> path != "" && selected.Some? && selected.value != "" && path == selected.value) &&
      (path == "" ==> lane.UntaggedLane?)
  {
    SameTagKey(tagId, paths, selected);
  }
}
