/** The `todo_dependencies` table: `addDependency`, one INSERT, and
    `replaceTodoPredecessors`, a DELETE of a todo's predecessors followed by
    one INSERT per distinct new predecessor, all in one transaction.
    An insert fails on a missing endpoint (foreign keys), on a self edge
    (`todo_dependencies_not_self_check`), on a duplicate (the primary key),
    and when the new edge would close a cycle (the cycle trigger). */
module Dependencies {
  import opened Wrappers
  import opened Closure
  import opened Sorting
  import opened Schema
  import opened Lists

  /** The edges naming `s` as successor of each id of `ps`. */
  function EdgesTo(s: int, ps: seq<int>): (r: set<Edge>)
    ensures forall e :: e in r <==> e.successor == s && e.predecessor in ps
  {
    set p | p in ps :: Edge(s, p)
  }

  /** The store after `delete from todo_dependencies where successor_id = s`. */
  function WithoutPredecessors(db: Db, s: int): (r: Db)
    ensures r.todos == db.todos && r.tags == db.tags
    ensures forall e :: e in r.edges <==> e in db.edges && e.successor != s
  {
    db.(edges := set e | e in db.edges && e.successor != s)
  }

  /** `p` can become a predecessor of `s`: both todos exist and `s` does not
      already come before `p`, which covers `p == s` as well. */
  predicate CanPrecede(db: Db, s: int, p: int) {
    s in db.todos && p in db.todos && p !in Reach(Down(db.edges), s)
  }

  /** `addDependency(s, p)`: adds exactly the edge `(s, p)` or fails and
      leaves the table as it was. Which message is raised when several
      constraints fail at once is not part of this model. */
  function AddDependency(db: Db, s: int, p: int): (r: Result<Db>)
    ensures r.Ok? <==> CanPrecede(db, s, p) && Edge(s, p) !in db.edges
    ensures r.Ok? ==> r.value == db.(edges := db.edges + {Edge(s, p)})
    ensures r.Err? && (s !in db.todos || p !in db.todos) ==> r.message == ForeignKeyError
    ensures r.Err? && s in db.todos && s == p ==> r.message == CheckError
  {
    if s !in db.todos || p !in db.todos then Err(ForeignKeyError)
    else if s == p then Err(CheckError)
    else if Edge(s, p) in db.edges then Err(UniqueError)
    else if p in Reach(Down(db.edges), s) then Err(DependencyCycleError)
    else Ok(db.(edges := db.edges + {Edge(s, p)}))
  }

  lemma DownAdd(edges: set<Edge>, s: int, p: int)
    ensures Down(edges + {Edge(s, p)}) == Down(edges) + {(p, s)}
  {
  }

  /** An edge into `s` from a todo that `s` does not lead to leaves
      unchanged what `s` leads to. */
  lemma AddKeepsReach(edges: set<Edge>, s: int, p: int)
    requires p !in Reach(Down(edges), s)
    ensures Reach(Down(edges + {Edge(s, p)}), s) == Reach(Down(edges), s)
  {
    DownAdd(edges, s, p);
    ReachAfterAdd(Down(edges), p, s, s);
    ReachMono(Down(edges), Down(edges + {Edge(s, p)}), s);
  }

  /** An accepted edge keeps the dependency graph acyclic. */
  lemma AddKeepsAcyclic(edges: set<Edge>, s: int, p: int)
    requires p !in Reach(Down(edges), s)
    ensures Acyclic(Down(edges)) ==> Acyclic(Down(edges + {Edge(s, p)}))
  {
    DownAdd(edges, s, p);
    if Acyclic(Down(edges)) {
      AddPairAcyclic(Down(edges), p, s);
    }
  }

  /** `addDependency` keeps every constraint of the store. */
  lemma AddDependencyKeepsValid(db: Db, s: int, p: int)
    requires Valid(db) && AddDependency(db, s, p).Ok?
    ensures Valid(AddDependency(db, s, p).value)
  {
    AddKeepsAcyclic(db.edges, s, p);
  }

  /** The new edge adds `p` to the predecessors of `s` and nothing else. */
  lemma AddDependencyAddsOnePredecessor(db: Db, s: int, p: int, t: int)
    requires AddDependency(db, s, p).Ok?
    ensures Preds(AddDependency(db, s, p).value.edges, t) == if t == s then Preds(db.edges, s) + {p} else Preds(db.edges, t)
  {
  }

  /** With `b` waiting for `a`, making `a` wait for `b` is rejected. */
  lemma ReverseEdgeRejected(db: Db, a: int, b: int)
    requires Edge(b, a) in db.edges
    ensures AddDependency(db, a, b).Err?
  {
    assert (a, b) in Down(db.edges);
    ReachStep(Down(db.edges), a, b);
  }

  /** Several predecessors for one todo: with no dependencies yet, two
      distinct existing todos can both be added before a third. */
  lemma TwoPredecessors(db: Db, s: int, p1: int, p2: int)
    requires db.edges == {} && s in db.todos && p1 in db.todos && p2 in db.todos
    requires s != p1 && s != p2 && p1 != p2
    ensures AddDependency(db, s, p1).Ok?
    ensures AddDependency(AddDependency(db, s, p1).value, s, p2).Ok?
    ensures Preds(AddDependency(AddDependency(db, s, p1).value, s, p2).value.edges, s) == {p1, p2}
  {
    assert Reach(Down(db.edges), s) == {s} by {
      assert ClosedUnder(Down(db.edges), {s});
      ReachLeast(Down(db.edges), s, {s});
    }
    var d1 := AddDependency(db, s, p1).value;
    assert Reach(Down(d1.edges), s) == {s} by {
      assert ClosedUnder(Down(d1.edges), {s});
      ReachLeast(Down(d1.edges), s, {s});
    }
  }

  // ---------------------------------------------------------------------------
  // One insert per predecessor

  /** The loop `for (p of ps) insert (s, p)`: the store after the inserts
      that ran, and the error of the one that failed, if any. Every insert
      before the failing one has taken effect. */
  function InsertEach(db: Db, s: int, ps: seq<int>): (r: (Db, Option<string>))
    requires Distinct(ps)
    requires forall p :: p in ps ==> Edge(s, p) !in db.edges
    ensures r.0 == db.(edges := r.0.edges)
    ensures db.edges <= r.0.edges <= db.edges + EdgesTo(s, ps)
    ensures forall e :: e in r.0.edges && e !in db.edges ==> CanPrecede(db, s, e.predecessor)
    ensures r.1.None? <==> forall p :: p in ps ==> CanPrecede(db, s, p)
    ensures r.1.None? ==> r.0.edges == db.edges + EdgesTo(s, ps)
    ensures Acyclic(Down(db.edges)) ==> Acyclic(Down(r.0.edges))
    decreases |ps|
  {
    if ps == [] then (db, None)
    else
      match AddDependency(db, s, ps[0])
      case Err(m) => (db, Some(m))
      case Ok(d1) =>
        assert ps[0] !in ps[1..];
        AddKeepsReach(db.edges, s, ps[0]);
        AddKeepsAcyclic(db.edges, s, ps[0]);
        assert forall p :: CanPrecede(d1, s, p) <==> CanPrecede(db, s, p);
        EdgesToCons(s, ps);
        InsertEach(d1, s, ps[1..])
  }

  lemma EdgesToCons(s: int, ps: seq<int>)
    requires ps != []
    ensures forall p :: p in ps <==> p == ps[0] || p in ps[1..]
    ensures EdgesTo(s, ps) == {Edge(s, ps[0])} + EdgesTo(s, ps[1..])
  {
    assert forall p :: p in ps <==> p == ps[0] || p in ps[1..];
  }

  /** `replaceTodoPredecessors(s, ids)`: inside one transaction, delete the
      predecessors of `s`, then insert each distinct id of `ids` in
      first-occurrence order. On failure the transaction is rolled back, so
      an error comes without a new store: all or nothing. */
  function ReplaceTodoPredecessors(db: Db, s: int, ids: seq<int>): (r: Result<Db>)
    ensures r.Ok? <==> forall p :: p in ids ==> CanPrecede(WithoutPredecessors(db, s), s, p)
    ensures r.Ok? ==> r.value == WithoutPredecessors(db, s).(edges := WithoutPredecessors(db, s).edges + EdgesTo(s, ids))
  {
    var cleared := WithoutPredecessors(db, s);
    var unique := Dedup(ids);
    var (after, err) := InsertEach(cleared, s, unique);
    assert EdgesTo(s, unique) == EdgesTo(s, ids);
    if err.Some? then Err(err.value) else Ok(after)
  }

  /** Afterwards the predecessors of `s` are exactly the ids given,
      duplicates collapsed. */
  lemma ReplaceSetsPredecessors(db: Db, s: int, ids: seq<int>)
    requires ReplaceTodoPredecessors(db, s, ids).Ok?
    ensures Preds(ReplaceTodoPredecessors(db, s, ids).value.edges, s) == Elements(ids)
  {
  }

  /** The edges of every other successor are left as they were, and so are
      the todos and the tags. */
  lemma ReplaceKeepsOtherSuccessors(db: Db, s: int, ids: seq<int>, t: int)
    requires ReplaceTodoPredecessors(db, s, ids).Ok? && t != s
    ensures Preds(ReplaceTodoPredecessors(db, s, ids).value.edges, t) == Preds(db.edges, t)
    ensures ReplaceTodoPredecessors(db, s, ids).value.todos == db.todos
    ensures ReplaceTodoPredecessors(db, s, ids).value.tags == db.tags
  {
  }

  /** Replacing with the empty list always succeeds and unblocks the todo. */
  lemma ReplaceWithEmptyUnblocks(db: Db, s: int)
    ensures ReplaceTodoPredecessors(db, s, []).Ok?
    ensures Preds(ReplaceTodoPredecessors(db, s, []).value.edges, s) == {}
    ensures !IsBlocked(ReplaceTodoPredecessors(db, s, []).value, s)
  {
  }

  /** Replacing with a list holding an incomplete todo blocks the todo. */
  lemma ReplaceWithIncompleteBlocks(db: Db, s: int, ids: seq<int>, p: int)
    requires ReplaceTodoPredecessors(db, s, ids).Ok?
    requires p in ids && p in db.todos && db.todos[p].status != Completed
    ensures IsBlocked(ReplaceTodoPredecessors(db, s, ids).value, s)
  {
    assert Edge(s, p) in ReplaceTodoPredecessors(db, s, ids).value.edges;
  }

  /** Only the set of ids matters: duplicates and order change nothing. */
  lemma ReplaceDependsOnSetOnly(db: Db, s: int, a: seq<int>, b: seq<int>)
    requires Elements(a) == Elements(b)
    ensures ReplaceTodoPredecessors(db, s, a).Ok? <==> ReplaceTodoPredecessors(db, s, b).Ok?
    ensures ReplaceTodoPredecessors(db, s, a).Ok? ==> ReplaceTodoPredecessors(db, s, a) == ReplaceTodoPredecessors(db, s, b)
  {
    assert forall p :: p in a <==> p in Elements(a);
    assert forall p :: p in b <==> p in Elements(b);
    assert EdgesTo(s, a) == EdgesTo(s, b);
  }

  /** Replacing a second time with the same ids succeeds and changes nothing. */
  lemma ReplaceIdempotent(db: Db, s: int, ids: seq<int>)
    requires ReplaceTodoPredecessors(db, s, ids).Ok?
    ensures ReplaceTodoPredecessors(ReplaceTodoPredecessors(db, s, ids).value, s, ids) == ReplaceTodoPredecessors(db, s, ids)
  {
    var d := ReplaceTodoPredecessors(db, s, ids).value;
    assert WithoutPredecessors(d, s) == WithoutPredecessors(db, s);
  }

  /** `replaceTodoPredecessors` keeps every constraint of the store. */
  lemma ReplaceKeepsValid(db: Db, s: int, ids: seq<int>)
    requires Valid(db) && ReplaceTodoPredecessors(db, s, ids).Ok?
    ensures Valid(ReplaceTodoPredecessors(db, s, ids).value)
  {
    var cleared := WithoutPredecessors(db, s);
    AcyclicSubset(Down(cleared.edges), Down(db.edges));
    var unique := Dedup(ids);
    var (after, err) := InsertEach(cleared, s, unique);
    assert ReplaceTodoPredecessors(db, s, ids).value == after;
    forall e | e in after.edges ensures e.successor in after.todos && e.predecessor in after.todos && e.successor != e.predecessor {
      if e !in cleared.edges {
        assert CanPrecede(cleared, s, e.predecessor);
      }
    }
  }
}
