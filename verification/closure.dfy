/** Reachability in a finite relation: the recursive common table
    expressions of the queries (`with recursive descendants(id) as (...)`)
    and the cycle checks of the database triggers.
    A relation is a finite set of pairs `(from, to)`. */
module Closure {

  type Rel = set<(int, int)>

  /** Everything one step away from `s`. */
  function Step(rel: Rel, s: set<int>): (r: set<int>)
    ensures forall p :: p in rel && p.0 in s ==> p.1 in r
  {
    set p | p in rel && p.0 in s :: p.1
  }

  /** Every element some pair leads to. */
  function Targets(rel: Rel): (r: set<int>)
    ensures forall p :: p in rel ==> p.1 in r
  {
    set p | p in rel :: p.1
  }

  predicate ClosedUnder(rel: Rel, s: set<int>) {
    forall p :: p in rel && p.0 in s ==> p.1 in s
  }

  /** A non-empty set has an element. */
  lemma NonEmpty(s: set<int>)
    requires s != {}
    ensures exists y :: y in s
  {
    if forall y :: y !in s {
      assert false;
    }
  }

  /** A set that is not a subset has an element outside. */
  lemma NotSubset(s: set<int>, t: set<int>)
    requires !(s <= t)
    ensures exists y :: y in s && y !in t
  {
    if forall y :: y in s ==> y in t {
      assert false;
    }
  }

  /** Adds steps to `s` until nothing new appears. */
  function Grow(rel: Rel, s: set<int>): (r: set<int>)
    ensures s <= r && ClosedUnder(rel, r)
    ensures r <= s + Targets(rel)
    ensures forall t :: s <= t && ClosedUnder(rel, t) ==> r <= t
    decreases Targets(rel) - s
  {
    if Step(rel, s) <= s then s
    else
      GrowShrinks(rel, s);
      Grow(rel, s + Step(rel, s))
  }

  lemma GrowShrinks(rel: Rel, s: set<int>)
    requires !(Step(rel, s) <= s)
    ensures Targets(rel) - (s + Step(rel, s)) < Targets(rel) - s
  {
    var next := s + Step(rel, s);
    NotSubset(Step(rel, s), s);
    var y :| y in Step(rel, s) && y !in s;
    var p :| p in rel && p.0 in s && p.1 == y;
    assert y in Targets(rel) - s && y !in Targets(rel) - next;
    assert Targets(rel) - next < Targets(rel) - s;
  }

  /** `root` together with everything reachable from it. */
  function Reach(rel: Rel, root: int): (r: set<int>)
    ensures root in r && ClosedUnder(rel, r)
    ensures r <= {root} + Targets(rel)
  {
    Grow(rel, {root})
  }

  /** Reach is the least set containing the root and closed under `rel`. */
  lemma ReachLeast(rel: Rel, root: int, t: set<int>)
    requires root in t && ClosedUnder(rel, t)
    ensures Reach(rel, root) <= t
  {
  }

  lemma SubsetCard(a: set<int>, b: set<int>)
    requires a <= b
    ensures |a| <= |b|
    decreases a
  {
    if a != {} {
      NonEmpty(a);
      var x :| x in a;
      SubsetCard(a - {x}, b - {x});
    }
  }

  lemma StrictSubsetCard(a: set<int>, b: set<int>)
    requires a < b
    ensures |a| < |b|
  {
    NotSubset(b, a);
    var x :| x in b && x !in a;
    SubsetCard(a, b - {x});
  }

  /** `rel` has no cycle: no pair leads back to where it starts. */
  predicate Acyclic(rel: Rel) {
    forall p :: p in rel ==> p.0 !in Reach(rel, p.1)
  }

  lemma ReachStep(rel: Rel, x: int, y: int)
    requires (x, y) in rel
    ensures y in Reach(rel, x)
  {
  }

  /** Reachability is transitive. */
  lemma ReachTrans(rel: Rel, x: int, y: int)
    requires y in Reach(rel, x)
    ensures Reach(rel, y) <= Reach(rel, x)
  {
  }

  /** A larger relation reaches at least as far. */
  lemma ReachMono(small: Rel, large: Rel, x: int)
    requires small <= large
    ensures Reach(small, x) <= Reach(large, x)
  {
  }

  /** Removing pairs keeps a relation acyclic. */
  lemma AcyclicSubset(small: Rel, large: Rel)
    requires small <= large && Acyclic(large)
    ensures Acyclic(small)
  {
    forall p | p in small ensures p.0 !in Reach(small, p.1) {
      assert p in large;
      ReachMono(small, large, p.1);
    }
  }

  /** Every element reached other than the root is reached through some
      pair whose source is itself reached. */
  lemma {:induction false} ReachPredecessor(rel: Rel, a: int, z: int) returns (p: int)
    requires z in Reach(rel, a) && z != a
    ensures p in Reach(rel, a) && (p, z) in rel
  {
    var r := Reach(rel, a);
    var s := {a} + Step(rel, r);
    forall q | q in rel && q.0 in s ensures q.1 in s {
      assert q.0 in r;
    }
    ReachLeast(rel, a, s);
    assert z in Step(rel, r);
    var q :| q in rel && q.0 in r && q.1 == z;
    p := q.0;
  }

  /** The recursive definition: what is reached from `x` is `x` and what is
      reached from each of its direct successors. */
  lemma {:induction false} ReachUnfold(rel: Rel, x: int, z: int)
    ensures z in Reach(rel, x) <==>
      (z == x || exists c :: (x, c) in rel && z in Reach(rel, c))
  {
    if z in Reach(rel, x) && z != x {
      ReachThroughChild(rel, x, z);
    }
    if z != x && exists c :: (x, c) in rel && z in Reach(rel, c) {
      var c :| (x, c) in rel && z in Reach(rel, c);
      ReachStep(rel, x, c);
      ReachTrans(rel, x, c);
    }
  }

  /** The set of everything reached from some direct successor of `x`. */
  function BelowChildren(rel: Rel, x: int): (r: set<int>)
    ensures forall c, z :: (x, c) in rel && z in Reach(rel, c) ==> z in r
  {
    set q, w | q in rel && q.0 == x && w in Reach(rel, q.1) :: w
  }

  lemma ReachThroughChild(rel: Rel, x: int, z: int)
    requires z in Reach(rel, x) && z != x
    ensures exists c :: (x, c) in rel && z in Reach(rel, c)
  {
    var u := {x} + BelowChildren(rel, x);
    forall q | q in rel && q.0 in u ensures q.1 in u {
      if q.0 == x {
        assert q.1 in Reach(rel, q.1);
      } else {
        assert q.0 in BelowChildren(rel, x);
        var q', w :| q' in rel && q'.0 == x && w in Reach(rel, q'.1) && w == q.0;
        assert q.1 in Reach(rel, q'.1);
      }
    }
    ReachLeast(rel, x, u);
    assert z in BelowChildren(rel, x);
    var q, w :| q in rel && q.0 == x && w in Reach(rel, q.1) && w == z;
    assert (x, q.1) in rel;
  }

  /** Adding a pair `(u, v)` whose source cannot be reached from `v` keeps
      the relation acyclic. */
  lemma {:induction false} AddPairAcyclic(rel: Rel, u: int, v: int)
    requires Acyclic(rel) && u !in Reach(rel, v)
    ensures Acyclic(rel + {(u, v)})
  {
    var big := rel + {(u, v)};
    forall p | p in big ensures p.0 !in Reach(big, p.1) {
      ReachAfterAdd(rel, u, v, p.1);
      if p == (u, v) {
      } else if p.0 in Reach(rel, v) {
        ReachStep(rel, p.0, p.1);
        ReachTrans(rel, v, p.0);
        ReachTrans(rel, p.0, p.1);
      }
    }
  }

  /** After adding `(u, v)`, what `z` reaches is what it reached before,
      plus everything `v` reaches when `z` reached `u`. */
  lemma ReachAfterAdd(rel: Rel, u: int, v: int, z: int)
    requires u !in Reach(rel, v)
    ensures Reach(rel + {(u, v)}, z) <=
      (if u in Reach(rel, z) then Reach(rel, z) + Reach(rel, v) else Reach(rel, z))
  {
    var big := rel + {(u, v)};
    var s := if u in Reach(rel, z) then Reach(rel, z) + Reach(rel, v) else Reach(rel, z);
    assert ClosedUnder(big, s);
  }

  /** A pair closing a cycle makes the relation cyclic. */
  lemma AddPairCyclic(rel: Rel, u: int, v: int)
    requires u in Reach(rel, v)
    ensures !Acyclic(rel + {(u, v)})
  {
    ReachMono(rel, rel + {(u, v)}, v);
  }

  /** In an acyclic relation a direct successor reaches strictly less. */
  lemma StepShrinks(rel: Rel, x: int, c: int)
    requires Acyclic(rel) && (x, c) in rel
    ensures Reach(rel, c) < Reach(rel, x)
    ensures |Reach(rel, c)| < |Reach(rel, x)|
  {
    ReachStep(rel, x, c);
    ReachTrans(rel, x, c);
    assert x !in Reach(rel, c);
    assert x in Reach(rel, x);
    StrictSubsetCard(Reach(rel, c), Reach(rel, x));
  }

  /** Every element has at most one incoming pair (a parent pointer). */
  predicate OneParent(rel: Rel) {
    forall p, q :: p in rel && q in rel && p.1 == q.1 ==> p.0 == q.0
  }

  /** With parent pointers, two roots reaching a common element reach one
      another: ancestors form a chain. */
  lemma {:induction false} CommonDescendant(rel: Rel, a: int, b: int, y: int)
    requires OneParent(rel)
    requires y in Reach(rel, a) && y in Reach(rel, b)
    ensures a in Reach(rel, b) || b in Reach(rel, a)
  {
    var s := set w | w in Reach(rel, a) && (w in Reach(rel, b) ==> a in Reach(rel, b) || b in Reach(rel, a));
    forall q | q in rel && q.0 in s ensures q.1 in s {
      var w, v := q.0, q.1;
      if v in Reach(rel, b) && v != b {
        var p := ReachPredecessor(rel, b, v);
        assert p == w;
      }
    }
    assert Reach(rel, a) <= s;
  }

  /** With parent pointers and no cycle, the subtrees under two different
      children of one node are disjoint. */
  lemma SiblingsDisjoint(rel: Rel, x: int, c1: int, c2: int, y: int)
    requires OneParent(rel) && Acyclic(rel)
    requires (x, c1) in rel && (x, c2) in rel && c1 != c2
    ensures !(y in Reach(rel, c1) && y in Reach(rel, c2))
  {
    if y in Reach(rel, c1) && y in Reach(rel, c2) {
      CommonDescendant(rel, c1, c2, y);
      if c1 in Reach(rel, c2) {
        var p := ReachPredecessor(rel, c2, c1);
      } else {
        var p := ReachPredecessor(rel, c1, c2);
      }
    }
  }
}
