/** The database: the `tags`, `todos` and `todo_dependencies` tables as
    immutable finite maps and sets, the constraints the schema and its
    triggers keep, and the values the queries derive from the tables
    (blocked state, predecessor sets, tag subtrees). */
module Schema {
  import opened Wrappers
  import opened Text
  import opened Closure

  datatype Status = Todo | InProgress | Completed | Cancelled

  /** The text stored in the `status` column. */
  function StatusName(s: Status): (r: string)
    ensures |r| >= 4
    ensures forall i :: 0 <= i < |r| ==> r[i] == '_' || 'a' <= r[i] <= 'z'
  {
    match s
    case Todo => "todo"
    case InProgress => "in_progress"
    case Completed => "completed"
    case Cancelled => "cancelled"
  }

  /** The status a column value stands for; any other text violates the
      `status in (...)` check. */
  function ParseStatus(r: string): (s: Option<Status>)
    ensures s.Some? ==> StatusName(s.value) == r
  {
    if r == "todo" then Some(Todo)
    else if r == "in_progress" then Some(InProgress)
    else if r == "completed" then Some(Completed)
    else if r == "cancelled" then Some(Cancelled)
    else None
  }

  lemma ParseStatusName(s: Status)
    ensures ParseStatus(StatusName(s)) == Some(s)
  {
  }

  /** A row of `todos`. The lease is a point in time, in seconds. */
  datatype TodoRow = TodoRow(
    id: int,
    description: string,
    tagId: Option<int>,
    status: Status,
    assignee: Option<string>,
    lease: Option<nat>,
    workNotes: Option<string>,
    priority: Option<int>,
    dueDate: Option<string>,
    createdAt: string,
    updatedAt: string)

  /** A row of `tags`. */
  datatype TagRow = TagRow(id: int, name: string, parentId: Option<int>)

  /** A row of `todo_dependencies`: `successor` waits for `predecessor`. */
  datatype Edge = Edge(successor: int, predecessor: int)

  /** The three tables plus the AUTOINCREMENT counters of the two id
      columns (ids are never reused). */
  datatype Db = Db(
    todos: map<int, TodoRow>,
    tags: map<int, TagRow>,
    edges: set<Edge>,
    nextTodoId: int,
    nextTagId: int)

  // ---------------------------------------------------------------------------
  // Errors raised by the database

  /** SQLite's messages for the declared constraints. */
  const ForeignKeyError := "FOREIGN KEY constraint failed"
  const UniqueError := "UNIQUE constraint failed"
  const CheckError := "CHECK constraint failed"

  /** The cycle and completion triggers are not part of this model; only the
      fact that they raise is. These stand for their messages. */
  const DependencyCycleError := "dependency cycle"
  const TagCycleError := "tag cycle"
  const BlockedCompletionError := "blocked todo cannot be completed"

  // ---------------------------------------------------------------------------
  // Derived values

  /** The `blockedExistsSql` condition: some dependency row names the todo
      as successor and joins to a predecessor row that is not completed.
      A dependency whose predecessor row is missing does not block. */
  predicate IsBlocked(db: Db, id: int) {
    exists e :: e in db.edges && e.successor == id && e.predecessor in db.todos &&
      db.todos[e.predecessor].status != Completed
  }

  /** Predecessor ids recorded for `id`. */
  function Preds(edges: set<Edge>, id: int): (r: set<int>)
    ensures forall p :: p in r <==> Edge(id, p) in edges
  {
    set e | e in edges && e.successor == id :: e.predecessor
  }

  /** Edges as a relation from predecessor to successor ("must come before"). */
  function Down(edges: set<Edge>): (r: Rel)
    ensures forall a, b :: (a, b) in r <==> Edge(b, a) in edges
  {
    set e | e in edges :: (e.predecessor, e.successor)
  }

  /** Parent pointers of the tags as a relation from parent to child: the
      join `t.parent_id = d.id` of the recursive descendant queries. */
  function ParentRel(tags: map<int, TagRow>): (r: Rel)
    ensures forall p, c :: (p, c) in r <==> c in tags && tags[c].parentId == Some(p)
  {
    set c | c in tags && tags[c].parentId.Some? :: (tags[c].parentId.value, c)
  }

  /** `tagId` and all its descendants, the `descendants` CTE. The seed is
      included whether or not a tag with that id exists. */
  function Subtree(tags: map<int, TagRow>, tagId: int): (r: set<int>)
    ensures tagId in r
    ensures forall c :: c in tags && tags[c].parentId.Some? && tags[c].parentId.value in r ==> c in r
  {
    Reach(ParentRel(tags), tagId)
  }

  /** The `tag_id in (descendants)` condition: a null tag never matches. */
  predicate InSubtree(tags: map<int, TagRow>, tagId: Option<int>, root: int) {
    tagId.Some? && tagId.value in Subtree(tags, root)
  }

  /** Null due dates sort as `'9999-12-31'`. */
  function DueKey(t: TodoRow): string {
    t.dueDate.GetOr("9999-12-31")
  }

  /** Null priorities sort as 0. */
  function PriorityKey(t: TodoRow): int {
    t.priority.GetOr(0)
  }

  // ---------------------------------------------------------------------------
  // Constraints

  /** `tags_name_lowercase_check`, `tags_name_not_empty_check` and
      `tags_name_alphanumeric_check` together. */
  predicate ValidTagName(name: string) {
    IsAlnumWord(name)
  }

  /** `tags_parent_name_unique` (siblings) and `tags_root_name_unique`
      (roots): two tags with the same parent, or both without one, have
      different names. */
  predicate UniqueTagNames(tags: map<int, TagRow>) {
    forall a, b :: a in tags && b in tags && a != b && tags[a].parentId == tags[b].parentId ==>
      tags[a].name != tags[b].name
  }

  predicate TagsValid(tags: map<int, TagRow>, nextTagId: int) {
    1 <= nextTagId &&
    (forall k :: k in tags ==> tags[k].id == k && 1 <= k < nextTagId) &&
    (forall k :: k in tags ==> ValidTagName(tags[k].name)) &&
    UniqueTagNames(tags) &&
    (forall k :: k in tags && tags[k].parentId.Some? ==> tags[k].parentId.value in tags) &&
    Acyclic(ParentRel(tags))
  }

  /** A priority is null or an integer from 1 to 5. */
  predicate ValidPriority(p: Option<int>) {
    p.None? || 1 <= p.value <= 5
  }

  /** Each row is stored under its own id, the primary key. */
  predicate KeyedById(todos: map<int, TodoRow>) {
    forall k :: k in todos ==> todos[k].id == k
  }

  predicate TodosValid(todos: map<int, TodoRow>, tags: map<int, TagRow>, nextTodoId: int) {
    KeyedById(todos) && 1 <= nextTodoId &&
    forall k :: k in todos ==>
      1 <= k < nextTodoId &&
      (todos[k].tagId.Some? ==> todos[k].tagId.value in tags) &&
      ValidPriority(todos[k].priority)
  }

  /** The primary key, both foreign keys and the not-self check of
      `todo_dependencies`, plus the cycle trigger. */
  predicate EdgesValid(edges: set<Edge>, todos: map<int, TodoRow>) {
    (forall e :: e in edges ==> e.successor in todos && e.predecessor in todos && e.successor != e.predecessor) &&
    Acyclic(Down(edges))
  }

  predicate Valid(db: Db) {
    TagsValid(db.tags, db.nextTagId) &&
    TodosValid(db.todos, db.tags, db.nextTodoId) &&
    EdgesValid(db.edges, db.todos)
  }

  /** The empty database, as created by the migrations. */
  function Empty(): (db: Db)
    ensures Valid(db)
  {
    Db(map[], map[], {}, 1, 1)
  }

  // ---------------------------------------------------------------------------
  // Properties of the derived blocked state

  /** A todo is blocked exactly when one of its recorded predecessors is an
      existing todo that is not completed. */
  lemma BlockedIffIncompletePredecessor(db: Db, id: int)
    ensures IsBlocked(db, id) <==>
      exists p :: p in Preds(db.edges, id) && p in db.todos && db.todos[p].status != Completed
  {
    if IsBlocked(db, id) {
      var e :| e in db.edges && e.successor == id && e.predecessor in db.todos &&
        db.todos[e.predecessor].status != Completed;
      assert e == Edge(id, e.predecessor);
      assert e.predecessor in Preds(db.edges, id);
    }
    if exists p :: p in Preds(db.edges, id) && p in db.todos && db.todos[p].status != Completed {
      var p :| p in Preds(db.edges, id) && p in db.todos && db.todos[p].status != Completed;
      assert Edge(id, p) in db.edges;
    }
  }

  /** Completing a todo's last incomplete predecessor unblocks it, and only
      the status column was written. */
  lemma CompletingLastPredecessorUnblocks(db: Db, id: int, p: int)
    requires p in db.todos
    requires forall q :: q in Preds(db.edges, id) && q in db.todos && q != p ==> db.todos[q].status == Completed
    ensures !IsBlocked(db.(todos := db.todos[p := db.todos[p].(status := Completed)]), id)
  {
  }
}
