/** `getExportTree`: the tag forest and the todo graph nested under
    predecessors. Each todo becomes one node holding its ascending
    predecessor ids and its successors, ascending by id, as children; the
    top level holds the todos without predecessors. A todo with several
    predecessors therefore appears under each of them. Dependency rows
    whose predecessor or successor is not a todo are skipped. */
module Export {
  import opened Wrappers
  import opened Closure
  import opened Sorting
  import opened Schema
  import opened Lists
  import opened TagForest

  /** The dependency rows the export uses, as (predecessor, successor)
      pairs: rows whose endpoints are both todos. */
  function Graph(db: Db): (r: Rel)
    ensures forall p, s :: (p, s) in r <==> Edge(s, p) in db.edges && s in db.todos && p in db.todos
  {
    set e | e in db.edges && e.successor in db.todos && e.predecessor in db.todos :: (e.predecessor, e.successor)
  }

  /** The todos that wait for `id`. */
  function Successors(db: Db, id: int): (r: set<int>)
    ensures forall s :: s in r <==> (id, s) in Graph(db)
  {
    set q | q in Graph(db) && q.0 == id :: q.1
  }

  /** The todos `id` waits for. */
  function Predecessors(db: Db, id: int): (r: set<int>)
    ensures forall p :: p in r <==> (p, id) in Graph(db)
  {
    set q | q in Graph(db) && q.1 == id :: q.0
  }

  /** The columns an `ExportTodoNode` copies from its row (all but the
      assignee and the lease). */
  datatype ExportRow = ExportRow(
    id: int,
    description: string,
    status: Status,
    tagId: Option<int>,
    workNotes: Option<string>,
    priority: Option<int>,
    dueDate: Option<string>,
    createdAt: string,
    updatedAt: string)

  function Exported(t: TodoRow): (r: ExportRow)
    ensures r.id == t.id
  {
    ExportRow(t.id, t.description, t.status, t.tagId, t.workNotes, t.priority, t.dueDate, t.createdAt, t.updatedAt)
  }

  /** An `ExportTodoNode`: the copied columns, the derived blocked flag,
      the predecessor ids and the nested successors. */
  datatype TodoNode = TodoNode(todo: ExportRow, isBlocked: bool, predecessorIds: seq<int>, children: seq<TodoNode>)
  {
    function id(): int { todo.id }
  }

  /** The todo graph nests: rows are stored under their ids, and no todo
      comes, through the kept rows, before itself (which the cycle trigger
      guarantees). */
  predicate Nestable(db: Db) {
    KeyedById(db.todos) && Acyclic(Graph(db))
  }

  /** A successor waits for fewer todos' worth of graph than its predecessor. */
  lemma SuccessorsShrink(db: Db, k: int, ids: seq<int>)
    requires Nestable(db) && Elements(ids) == Successors(db, k)
    ensures forall i :: 0 <= i < |ids| ==>
      ids[i] in db.todos && |Reach(Graph(db), ids[i])| < |Reach(Graph(db), k)|
  {
    forall i | 0 <= i < |ids|
      ensures ids[i] in db.todos && |Reach(Graph(db), ids[i])| < |Reach(Graph(db), k)|
    {
      assert ids[i] in Elements(ids);
      StepShrinks(Graph(db), k, ids[i]);
    }
  }

  /** The node of todo `k` with everything that waits for it nested below. */
  function Expand(db: Db, k: int): (n: TodoNode)
    requires Nestable(db) && k in db.todos
    ensures n.todo == Exported(db.todos[k])
    ensures n.isBlocked <==> IsBlocked(db, k)
    ensures Elements(n.predecessorIds) == Predecessors(db, k) && Increasing(n.predecessorIds)
    ensures Increasing(Ids(n.children)) && Elements(Ids(n.children)) == Successors(db, k)
    decreases |Reach(Graph(db), k)|
  {
    var t := db.todos[k];
    var succ := Ascending(Successors(db, k));
    SuccessorsShrink(db, k, succ);
    var children := seq(|succ|, i requires 0 <= i < |succ| => Expand(db, succ[i]));
    assert Ids(children) == succ;
    TodoNode(Exported(t), IsBlocked(db, k), Ascending(Predecessors(db, k)), children)
  }

  function Ids(ns: seq<TodoNode>): (r: seq<int>)
    ensures |r| == |ns| && forall i :: 0 <= i < |ns| ==> r[i] == ns[i].id()
  {
    if ns == [] then [] else [ns[0].id()] + Ids(ns[1..])
  }

  /** The todos without a (kept) predecessor. */
  function Starts(db: Db): (r: set<int>)
    ensures forall k :: k in r <==> k in db.todos && Predecessors(db, k) == {}
  {
    set k | k in db.todos && Predecessors(db, k) == {}
  }

  datatype ExportTree = ExportTree(tagTree: seq<TagNode>, todoTree: seq<TodoNode>)

  /** The top level of the todo tree: the todos without predecessors,
      ascending by id, each with what waits for it nested below. */
  function TodoTree(db: Db): (r: seq<TodoNode>)
    requires Nestable(db)
    ensures Increasing(Ids(r)) && Elements(Ids(r)) == Starts(db)
  {
    var starts := Ascending(Starts(db));
    forall i | 0 <= i < |starts| ensures starts[i] in db.todos {
      assert starts[i] in Elements(starts);
    }
    var todoTree := seq(|starts|, i requires 0 <= i < |starts| => Expand(db, starts[i]));
    assert Ids(todoTree) == starts;
    todoTree
  }

  /** `getExportTree`: the tag forest and the todo tree. */
  function GetExportTree(db: Db): (r: ExportTree)
    requires Buildable(db.tags) && Nestable(db)
    ensures Elements(PreorderAll(r.tagTree)) == db.tags.Keys && Distinct(PreorderAll(r.tagTree))
    ensures SortedBy(BySibling(), Rows(r.tagTree))
    ensures Increasing(Ids(r.todoTree)) && Elements(Ids(r.todoTree)) == Starts(db)
  {
    ForestExactlyOnce(db.tags);
    ExportTree(Forest(db.tags), TodoTree(db))
  }

  // ---------------------------------------------------------------------------
  // Properties

  /** In a valid store nothing is skipped, and both trees can be built. */
  lemma ValidExports(db: Db)
    requires Valid(db)
    ensures forall p, s :: (p, s) in Graph(db) <==> Edge(s, p) in db.edges
    ensures Buildable(db.tags) && Nestable(db)
  {
    assert Graph(db) == Down(db.edges);
  }

  /** In a valid store a node lists all predecessors of its todo, ascending. */
  lemma PredecessorIdsComplete(db: Db, k: int)
    requires Valid(db) && k in db.todos
    ensures Nestable(db)
    ensures Expand(db, k).predecessorIds == Ascending(Preds(db.edges, k))
  {
    ValidExports(db);
    assert Predecessors(db, k) == Preds(db.edges, k);
    AscendingUnique(Expand(db, k).predecessorIds);
  }

  /** A node's blocked flag is what its predecessor list says: some listed
      predecessor is not completed. */
  lemma BlockedFromPredecessorIds(db: Db, k: int)
    requires Nestable(db) && k in db.todos
    ensures Expand(db, k).isBlocked <==>
      exists p :: p in Expand(db, k).predecessorIds && p in db.todos && db.todos[p].status != Completed
  {
    var ps := Expand(db, k).predecessorIds;
    if IsBlocked(db, k) {
      var e :| e in db.edges && e.successor == k && e.predecessor in db.todos &&
        db.todos[e.predecessor].status != Completed;
      assert e.predecessor in Elements(ps);
    }
    if exists p :: p in ps && p in db.todos && db.todos[p].status != Completed {
      var p :| p in ps && p in db.todos && db.todos[p].status != Completed;
      assert p in Elements(ps);
      assert Edge(k, p) in db.edges;
    }
  }

  /** The lists agree: `p` is among the predecessors of `s` exactly when
      `s` is among the children of `p`. */
  lemma PredecessorChildAgree(db: Db, s: int, p: int)
    requires Nestable(db) && s in db.todos && p in db.todos
    ensures p in Expand(db, s).predecessorIds <==> s in Ids(Expand(db, p).children)
  {
    assert p in Expand(db, s).predecessorIds <==> p in Elements(Expand(db, s).predecessorIds);
    assert s in Ids(Expand(db, p).children) <==> s in Elements(Ids(Expand(db, p).children));
  }

  /** The children of a node are the nodes of its successors, built the
      same way; so a todo with several predecessors appears under each. */
  lemma ChildIsExpanded(db: Db, k: int, i: int)
    requires Nestable(db) && k in db.todos && 0 <= i < |Expand(db, k).children|
    ensures Expand(db, k).children[i].id() in db.todos
    ensures Expand(db, k).children[i] == Expand(db, Expand(db, k).children[i].id())
  {
    var succ := Ascending(Successors(db, k));
    SuccessorsShrink(db, k, succ);
    assert Expand(db, k).children[i] == Expand(db, succ[i]);
  }

  /** Wherever `p` is, the node of `s` sits among its children when `s`
      waits for `p`. */
  lemma UnderEachPredecessor(db: Db, s: int, p: int) returns (i: nat)
    requires Nestable(db) && (p, s) in Graph(db)
    ensures i < |Expand(db, p).children| && Expand(db, p).children[i] == Expand(db, s)
  {
    assert s in Successors(db, p);
    i := IdIndex(Expand(db, p).children, s);
    ChildIsExpanded(db, p, i);
  }

  /** A dependency row with a missing endpoint changes nothing exported. */
  lemma DanglingRowIgnored(db: Db, e: Edge, k: int)
    requires e.successor !in db.todos || e.predecessor !in db.todos
    requires Nestable(db) && k in db.todos
    ensures Graph(db.(edges := db.edges + {e})) == Graph(db)
    ensures Nestable(db.(edges := db.edges + {e}))
    ensures Expand(db.(edges := db.edges + {e}), k) == Expand(db, k)
  {
    var db' := db.(edges := db.edges + {e});
    assert Graph(db') == Graph(db);
    SameKeptSameExpansion(db, db', k);
  }

  /** Two stores with the same todos and kept rows export the same nodes. */
  lemma {:induction false} SameKeptSameExpansion(a: Db, b: Db, k: int)
    requires a.todos == b.todos && Graph(a) == Graph(b)
    requires Nestable(a) && k in a.todos
    ensures Nestable(b) && Expand(a, k) == Expand(b, k)
    decreases |Reach(Graph(a), k)|
  {
    assert IsBlocked(a, k) == IsBlocked(b, k) by {
      if IsBlocked(a, k) {
        var e :| e in a.edges && e.successor == k && e.predecessor in a.todos && a.todos[e.predecessor].status != Completed;
        assert (e.predecessor, k) in Graph(b);
      }
      if IsBlocked(b, k) {
        var e :| e in b.edges && e.successor == k && e.predecessor in b.todos && b.todos[e.predecessor].status != Completed;
        assert (e.predecessor, k) in Graph(a);
      }
    }
    var ca := Expand(a, k).children;
    var cb := Expand(b, k).children;
    assert Ids(ca) == Ids(cb) by {
      AscendingUnique(Ids(ca));
      AscendingUnique(Ids(cb));
    }
    forall i | 0 <= i < |ca| ensures ca[i] == cb[i] {
      ChildIsExpanded(a, k, i);
      ChildIsExpanded(b, k, i);
      assert (k, ca[i].id()) in Graph(a) by {
        assert ca[i].id() in Elements(Ids(ca));
      }
      StepShrinks(Graph(a), k, ca[i].id());
      SameKeptSameExpansion(a, b, ca[i].id());
    }
    AscendingUnique(Expand(a, k).predecessorIds);
    AscendingUnique(Expand(b, k).predecessorIds);
  }

  // ---------------------------------------------------------------------------
  // Every todo is exported

  /** The ids met anywhere in a node's expansion. */
  function Within(n: TodoNode): set<int>
    decreases n
  {
    {n.id()} + WithinAll(n.children)
  }

  function WithinAll(ns: seq<TodoNode>): set<int>
    decreases ns
  {
    if ns == [] then {} else Within(ns[0]) + WithinAll(ns[1..])
  }

  lemma {:induction false} WithinAllIndex(ns: seq<TodoNode>, i: int)
    requires 0 <= i < |ns|
    ensures Within(ns[i]) <= WithinAll(ns)
    decreases |ns|
  {
    if i > 0 {
      WithinAllIndex(ns[1..], i - 1);
      assert ns[1..][i - 1] == ns[i];
    }
  }

  lemma {:induction false} WithinAllWitness(ns: seq<TodoNode>, z: int) returns (i: nat)
    requires z in WithinAll(ns)
    ensures i < |ns| && z in Within(ns[i])
    decreases |ns|
  {
    if z in Within(ns[0]) {
      i := 0;
    } else {
      var j := WithinAllWitness(ns[1..], z);
      assert ns[1..][j] == ns[j + 1];
      i := j + 1;
    }
  }

  /** Whatever waits, directly or not, for `k` is in the expansion of `k`. */
  lemma {:induction false} ReachedIsExpanded(db: Db, k: int, z: int)
    requires Nestable(db) && k in db.todos && z in Reach(Graph(db), k)
    ensures z in Within(Expand(db, k))
    decreases |Reach(Graph(db), k)|
  {
    var rel := Graph(db);
    if z != k {
      ReachThroughChild(rel, k, z);
      var c :| (k, c) in rel && z in Reach(rel, c);
      ChildWithin(db, k, c);
      ReachedIsExpanded(db, c, z);
    }
  }

  /** A successor's expansion is part of the expansion of `k`, and fewer
      todos wait for it. */
  lemma ChildWithin(db: Db, k: int, c: int)
    requires Nestable(db) && k in db.todos && (k, c) in Graph(db)
    ensures c in db.todos && Within(Expand(db, c)) <= Within(Expand(db, k))
    ensures |Reach(Graph(db), c)| < |Reach(Graph(db), k)|
  {
    var i := UnderEachPredecessor(db, c, k);
    WithinChild(Expand(db, k), i);
    StepShrinks(Graph(db), k, c);
  }

  /** The ids met below a child are met below its parent. */
  lemma WithinChild(n: TodoNode, i: int)
    requires 0 <= i < |n.children|
    ensures Within(n.children[i]) <= Within(n)
  {
    WithinAllIndex(n.children, i);
  }

  /** The position of an id among the ids of some nodes. */
  lemma IdIndex(ns: seq<TodoNode>, c: int) returns (i: int)
    requires c in Elements(Ids(ns))
    ensures 0 <= i < |ns| && ns[i].id() == c
  {
    i :| 0 <= i < |ns| && Ids(ns)[i] == c;
  }

  /** Everything in the expansion of `k` waits, directly or not, for `k`. */
  lemma {:induction false} ExpandedIsReached(db: Db, k: int, z: int)
    requires Nestable(db) && k in db.todos && z in Within(Expand(db, k))
    ensures z in Reach(Graph(db), k)
    decreases |Reach(Graph(db), k)|
  {
    var rel := Graph(db);
    var cs := Expand(db, k).children;
    if z != k {
      var i := WithinAllWitness(cs, z);
      ChildIsExpanded(db, k, i);
      var c := cs[i].id();
      assert c in Elements(Ids(cs));
      StepShrinks(rel, k, c);
      ExpandedIsReached(db, c, z);
      ReachStep(rel, k, c);
      ReachTrans(rel, k, c);
    }
  }

  /** A node's expansion holds exactly the todos that wait, directly or
      not, for its own. */
  lemma ExpandReaches(db: Db, k: int)
    requires Nestable(db) && k in db.todos
    ensures Within(Expand(db, k)) == Reach(Graph(db), k)
  {
    forall z | z in Reach(Graph(db), k) ensures z in Within(Expand(db, k)) {
      ReachedIsExpanded(db, k, z);
    }
    forall z | z in Within(Expand(db, k)) ensures z in Reach(Graph(db), k) {
      ExpandedIsReached(db, k, z);
    }
  }

  /** The todos that come, directly or not, before `t`. */
  function Before(db: Db, t: int): set<int> {
    set x | x in db.todos && t in Reach(Graph(db), x)
  }

  /** Every todo waits, directly or not, for some todo without predecessors. */
  lemma {:induction false} HasStart(db: Db, t: int) returns (r: int)
    requires Nestable(db) && t in db.todos
    ensures r in Starts(db) && t in Reach(Graph(db), r)
    decreases |Before(db, t)|
  {
    var rel := Graph(db);
    if Predecessors(db, t) == {} {
      r := t;
    } else {
      NonEmpty(Predecessors(db, t));
      var p :| p in Predecessors(db, t);
      assert (p, t) in rel;
      ReachStep(rel, p, t);
      forall x | x in Before(db, p) ensures x in Before(db, t) {
        ReachTrans(rel, x, p);
      }
      assert t in Before(db, t) && t !in Before(db, p);
      StrictSubsetCard(Before(db, p), Before(db, t));
      r := HasStart(db, p);
      ReachTrans(rel, r, p);
    }
  }

  /** The top-level nodes are the expansions of the todos without
      predecessors. */
  lemma TodoTreeExpanded(db: Db, i: int)
    requires Nestable(db) && 0 <= i < |TodoTree(db)|
    ensures TodoTree(db)[i].id() in db.todos
    ensures TodoTree(db)[i] == Expand(db, TodoTree(db)[i].id())
    ensures TodoTree(db)[i].predecessorIds == []
  {
    var k := TodoTreeAt(db, i);
    EmptyElements(Expand(db, k).predecessorIds);
  }

  /** The `i`-th top-level node is the expansion of the `i`-th todo without
      predecessors. */
  lemma TodoTreeAt(db: Db, i: int) returns (k: int)
    requires Nestable(db) && 0 <= i < |TodoTree(db)|
    ensures k in db.todos && Predecessors(db, k) == {}
    ensures TodoTree(db)[i] == Expand(db, k)
  {
    var starts := Ascending(Starts(db));
    assert starts[i] in Elements(starts);
    k := starts[i];
  }

  /** A todo lies below the top-level node of a todo it waits for. */
  lemma InTodoTree(db: Db, t: int)
    requires Buildable(db.tags) && Nestable(db) && t in db.todos
    ensures t in WithinAll(GetExportTree(db).todoTree)
  {
    var f := TodoTree(db);
    var r := HasStart(db, t);
    assert r in Elements(Ids(f));
    var i :| 0 <= i < |f| && Ids(f)[i] == r;
    TodoTreeExpanded(db, i);
    ExpandReaches(db, r);
    WithinAllIndex(f, i);
    assert GetExportTree(db).todoTree == f;
  }

  /** Whatever a todo leads to is a todo. */
  lemma ReachWithinTodos(db: Db, k: int)
    requires k in db.todos
    ensures Reach(Graph(db), k) <= db.todos.Keys
  {
    assert ClosedUnder(Graph(db), db.todos.Keys);
    ReachLeast(Graph(db), k, db.todos.Keys);
  }

  /** Every todo appears in the exported todo tree, and nothing else does. */
  lemma TodoTreeCoversTodos(db: Db)
    requires Buildable(db.tags) && Nestable(db)
    ensures WithinAll(GetExportTree(db).todoTree) == db.todos.Keys
  {
    var f := TodoTree(db);
    forall t | t in db.todos ensures t in WithinAll(f) {
      InTodoTree(db, t);
    }
    forall z | z in WithinAll(f) ensures z in db.todos {
      var i := WithinAllWitness(f, z);
      TodoTreeExpanded(db, i);
      ExpandReaches(db, f[i].id());
      ReachWithinTodos(db, f[i].id());
    }
  }
}
