/** Writes to the `todos` table: `createTodo`, `updateTodo`, `deleteTodo`,
    and the two composite operations built on them, `addTodo` and
    `updateTodoWithRelations`. Neither composite runs in a transaction: a
    step that fails leaves the earlier steps in place. */
module TodoMutations {
  import opened Wrappers
  import opened Closure
  import opened Sorting
  import opened Schema
  import opened Lists
  import opened TodoQueries
  import opened Tags
  import opened Dependencies

  // ---------------------------------------------------------------------------
  // createTodo

  /** The values of a new row; the id and both timestamps are filled in by
      the database. */
  datatype NewTodo = NewTodo(
    description: string,
    status: Status,
    tagId: Option<int>,
    assignee: Option<string>,
    lease: Option<nat>,
    workNotes: Option<string>,
    priority: Option<int>,
    dueDate: Option<string>)

  /** The row a successful insert creates, stamped with `stamp`. */
  function RowOf(id: int, n: NewTodo, stamp: string): (t: TodoRow)
    ensures t.id == id && t.createdAt == stamp && t.updatedAt == stamp
    ensures t.description == n.description && t.status == n.status && t.tagId == n.tagId
    ensures t.assignee == n.assignee && t.lease == n.lease && t.workNotes == n.workNotes
    ensures t.priority == n.priority && t.dueDate == n.dueDate
  {
    TodoRow(id, n.description, n.tagId, n.status, n.assignee, n.lease, n.workNotes, n.priority, n.dueDate, stamp, stamp)
  }

  /** Ids handed out so far are below the AUTOINCREMENT counter. */
  predicate TodoIdsFresh(db: Db) {
    forall k :: k in db.todos ==> k < db.nextTodoId
  }

  /** `createTodo`: one INSERT, rejected by the priority check or the tag
      foreign key; otherwise the new row gets the next id. */
  function CreateTodo(db: Db, n: NewTodo, stamp: string): (r: Result<(Db, TodoRow)>)
    ensures r.Ok? <==> ValidPriority(n.priority) && (n.tagId.Some? ==> n.tagId.value in db.tags)
    ensures r.Err? && !ValidPriority(n.priority) ==> r.message == CheckError
    ensures r.Ok? ==>
      var (db', t) := r.value;
      t == RowOf(db.nextTodoId, n, stamp) &&
      db' == db.(todos := db.todos[t.id := t], nextTodoId := db.nextTodoId + 1)
  {
    if !ValidPriority(n.priority) then Err(CheckError)
    else if n.tagId.Some? && n.tagId.value !in db.tags then Err(ForeignKeyError)
    else
      var t := RowOf(db.nextTodoId, n, stamp);
      Ok((db.(todos := db.todos[t.id := t], nextTodoId := db.nextTodoId + 1), t))
  }

  /** Valid stores have fresh ids. */
  lemma ValidIdsFresh(db: Db)
    requires Valid(db)
    ensures TodoIdsFresh(db) && CanWalk(db) && db.nextTodoId !in db.todos
  {
  }

  /** A created todo has a new id, waits for nothing and is not blocked;
      the existing rows are kept. */
  lemma CreateTodoIsFresh(db: Db, n: NewTodo, stamp: string)
    requires Valid(db) && CreateTodo(db, n, stamp).Ok?
    ensures
      var (db', t) := CreateTodo(db, n, stamp).value;
      t.id !in db.todos && Preds(db'.edges, t.id) == {} && !IsBlocked(db', t.id) &&
      forall k :: k in db.todos ==> k in db'.todos && db'.todos[k] == db.todos[k]
  {
    var (db', t) := CreateTodo(db, n, stamp).value;
    assert forall e :: e in db.edges ==> e.successor != t.id;
  }

  lemma CreateTodoKeepsValid(db: Db, n: NewTodo, stamp: string)
    requires Valid(db) && CreateTodo(db, n, stamp).Ok?
    ensures Valid(CreateTodo(db, n, stamp).value.0)
  {
  }

  // ---------------------------------------------------------------------------
  // updateTodo

  /** The `TodoUpdate` object: each field is either absent or the new
      value; a nullable column may be set to null. */
  datatype TodoChanges = TodoChanges(
    description: Option<string>,
    status: Option<Status>,
    tagId: Option<Option<int>>,
    workNotes: Option<Option<string>>,
    priority: Option<Option<int>>,
    dueDate: Option<Option<string>>)

  const NoChanges := TodoChanges(None, None, None, None, None, None)

  /** The row with the supplied fields replaced. */
  function Apply(t: TodoRow, c: TodoChanges): (u: TodoRow)
    ensures u.id == t.id && u.assignee == t.assignee && u.lease == t.lease
    ensures u.createdAt == t.createdAt && u.updatedAt == t.updatedAt
  {
    t.(description := c.description.GetOr(t.description),
       status := c.status.GetOr(t.status),
       tagId := c.tagId.GetOr(t.tagId),
       workNotes := c.workNotes.GetOr(t.workNotes),
       priority := c.priority.GetOr(t.priority),
       dueDate := c.dueDate.GetOr(t.dueDate))
  }

  /** Applying nothing changes nothing, and applying the same changes twice
      is applying them once. */
  lemma ApplyLaws(t: TodoRow, c: TodoChanges)
    ensures Apply(t, NoChanges) == t
    ensures Apply(Apply(t, c), c) == Apply(t, c)
    ensures c.status.Some? ==> Apply(t, c).status == c.status.value
    ensures c.status.None? ==> Apply(t, c).status == t.status
  {
  }

  /** The completion trigger: setting `status = 'completed'` on a blocked
      todo is rejected. */
  predicate CompletesBlocked(db: Db, id: int, c: TodoChanges) {
    c.status == Some(Completed) && IsBlocked(db, id)
  }

  /** The new tag does not exist. */
  predicate MissingTag(db: Db, c: TodoChanges) {
    c.tagId.Some? && c.tagId.value.Some? && c.tagId.value.value !in db.tags
  }

  /** `updateTodo(id, changes)`: one UPDATE of the row with that id. With
      no such row nothing is written and no row is returned. */
  function UpdateTodo(db: Db, id: int, c: TodoChanges): (r: Result<(Db, Option<TodoRow>)>)
    ensures id !in db.todos ==> r == Ok((db, None))
    ensures id in db.todos ==>
      (r.Err? <==> CompletesBlocked(db, id, c) || (c.priority.Some? && !ValidPriority(c.priority.value)) || MissingTag(db, c))
    ensures r.Err? && CompletesBlocked(db, id, c) ==> r.message == BlockedCompletionError
    ensures r.Ok? && id in db.todos ==>
      r.value.1 == Some(Apply(db.todos[id], c)) &&
      r.value.0 == db.(todos := db.todos[id := Apply(db.todos[id], c)])
  {
    if id !in db.todos then Ok((db, None))
    else if CompletesBlocked(db, id, c) then Err(BlockedCompletionError)
    else if c.priority.Some? && !ValidPriority(c.priority.value) then Err(CheckError)
    else if MissingTag(db, c) then Err(ForeignKeyError)
    else
      var u := Apply(db.todos[id], c);
      Ok((db.(todos := db.todos[id := u]), Some(u)))
  }

  /** A blocked todo cannot be set to completed. */
  lemma CompletionGuard(db: Db, id: int)
    requires id in db.todos && IsBlocked(db, id)
    ensures UpdateTodo(db, id, NoChanges.(status := Some(Completed))).Err?
  {
  }

  /** Once every predecessor is completed the todo can be completed. */
  lemma CompletionAllowedWhenUnblocked(db: Db, id: int)
    requires id in db.todos
    requires forall p :: p in Preds(db.edges, id) && p in db.todos ==> db.todos[p].status == Completed
    ensures UpdateTodo(db, id, NoChanges.(status := Some(Completed))).Ok?
    ensures UpdateTodo(db, id, NoChanges.(status := Some(Completed))).value.1.value.status == Completed
  {
    BlockedIffIncompletePredecessor(db, id);
  }

  lemma UpdateTodoKeepsValid(db: Db, id: int, c: TodoChanges)
    requires Valid(db) && UpdateTodo(db, id, c).Ok?
    ensures Valid(UpdateTodo(db, id, c).value.0)
  {
  }

  // ---------------------------------------------------------------------------
  // deleteTodo

  /** `deleteTodo(id)`: removes the row and, through the foreign keys, every
      dependency naming it at either end; returns the deleted row. */
  function DeleteTodo(db: Db, id: int): (r: (Db, Option<TodoRow>))
    ensures r.1.Some? <==> id in db.todos
    ensures r.1.Some? ==> r.1.value == db.todos[id]
    ensures r.0.todos == db.todos - {id} && r.0.tags == db.tags
    ensures forall e :: e in r.0.edges <==> e in db.edges && e.successor != id && e.predecessor != id
    ensures r.0.nextTodoId == db.nextTodoId && r.0.nextTagId == db.nextTagId
  {
    var edges' := set e | e in db.edges && e.successor != id && e.predecessor != id;
    (db.(todos := db.todos - {id}, edges := edges'), if id in db.todos then Some(db.todos[id]) else None)
  }

  /** Deleting a todo removes it from every predecessor set and never blocks
      a remaining todo. */
  lemma DeleteTodoUnblocks(db: Db, id: int, s: int)
    requires s != id
    ensures Preds(DeleteTodo(db, id).0.edges, s) == Preds(db.edges, s) - {id}
    ensures IsBlocked(DeleteTodo(db, id).0, s) ==> IsBlocked(db, s)
  {
    var db' := DeleteTodo(db, id).0;
    if IsBlocked(db', s) {
      var e :| e in db'.edges && e.successor == s && e.predecessor in db'.todos &&
        db'.todos[e.predecessor].status != Completed;
      assert e in db.edges;
    }
  }

  /** Deleting a todo's only predecessor leaves it without dependencies and
      unblocked. */
  lemma DeleteOnlyPredecessor(db: Db, p: int, s: int)
    requires Preds(db.edges, s) == {p} && s != p
    ensures Preds(DeleteTodo(db, p).0.edges, s) == {}
    ensures !IsBlocked(DeleteTodo(db, p).0, s)
  {
    DeleteTodoUnblocks(db, p, s);
    BlockedIffIncompletePredecessor(DeleteTodo(db, p).0, s);
  }

  lemma DeleteTodoKeepsValid(db: Db, id: int)
    requires Valid(db)
    ensures Valid(DeleteTodo(db, id).0)
  {
    var db' := DeleteTodo(db, id).0;
    assert Down(db'.edges) <= Down(db.edges);
    AcyclicSubset(Down(db'.edges), Down(db.edges));
  }

  // ---------------------------------------------------------------------------
  // addTodo

  datatype AddInput = AddInput(
    description: string,
    status: Option<Status>,
    tagPath: Option<string>,
    predecessorIds: Option<seq<int>>,
    workNotes: Option<string>,
    priority: Option<int>,
    dueDate: Option<string>)

  /** The row values `addTodo` passes to `createTodo`. */
  function NewTodoOf(input: AddInput, tagId: Option<int>): (n: NewTodo)
    ensures n.status == input.status.GetOr(Todo) && n.tagId == tagId
    ensures n.assignee.None? && n.lease.None?
  {
    NewTodo(input.description, input.status.GetOr(Todo), tagId, None, None,
      input.workNotes, input.priority, input.dueDate)
  }

  /** The tag step of `addTodo`: a non-empty path is ensured, a missing or
      empty one means no tag. */
  function AddTag(db: Db, tagPath: Option<string>): (r: Result<(Db, Option<int>)>)
    requires CanWalk(db)
    ensures !Truthy(tagPath) ==> r == Ok((db, None))
    ensures Truthy(tagPath) ==> (r.Err? <==> EnsureTagPath(db, tagPath.value).Err?)
    ensures Truthy(tagPath) && r.Ok? ==>
      r.value.0 == EnsureTagPath(db, tagPath.value).value.0 &&
      r.value.1 == Some(EnsureTagPath(db, tagPath.value).value.1.id)
  {
    if !Truthy(tagPath) then Ok((db, None))
    else
      match EnsureTagPath(db, tagPath.value)
      case Err(m) => Err(m)
      case Ok((db', t)) => Ok((db', Some(t.id)))
  }

  /** `addTodo`: ensure the tag path, create the row, then add each distinct
      predecessor in first-occurrence order; the result is the stored todo.
      Each step that succeeded stays in the store when a later one fails. */
  function AddTodo(db: Db, stamp: string, input: AddInput): (r: (Db, Result<TodoView>))
    requires Valid(db)
    ensures r.1.Ok? ==>
      var id := db.nextTodoId;
      id in r.0.todos && r.1.value.row == r.0.todos[id] &&
      (r.1.value.isBlocked <==> IsBlocked(r.0, id)) &&
      r.1.value.row.status == input.status.GetOr(Todo) &&
      r.1.value.row.description == input.description &&
      (r.1.value.row.tagId.Some? <==> Truthy(input.tagPath)) &&
      Preds(r.0.edges, id) == Elements(input.predecessorIds.GetOr([]))
    ensures r.1.Ok? ==>
      r.1.value.row.priority == input.priority && r.1.value.row.workNotes == input.workNotes &&
      r.1.value.row.dueDate == input.dueDate &&
      AddTag(db, input.tagPath).Ok? && r.1.value.row.tagId == AddTag(db, input.tagPath).value.1
    ensures r.1.Ok? <==>
      (!Truthy(input.tagPath) || NormalizeTagPath(input.tagPath.value).Ok?) &&
      ValidPriority(input.priority) &&
      forall p :: p in input.predecessorIds.GetOr([]) ==> p in db.todos
    ensures Truthy(input.tagPath) && NormalizeTagPath(input.tagPath.value).Err? ==>
      r == (db, Err(NormalizeTagPath(input.tagPath.value).message))
    ensures Valid(r.0)
  {
    ValidIdsFresh(db);
    match AddTag(db, input.tagPath)
    case Err(m) => (db, Err(m))
    case Ok((db1, tagId)) =>
      AddTagKeepsValid(db, input.tagPath);
      AddTagged(db1, stamp, input, tagId)
  }

  /** `addTodo` once the tag is known: create the row, then add its
      predecessors. */
  function AddTagged(db: Db, stamp: string, input: AddInput, tagId: Option<int>): (r: (Db, Result<TodoView>))
    requires Valid(db)
    ensures r.1.Ok? ==>
      var id := db.nextTodoId;
      id in r.0.todos && r.1.value.row == r.0.todos[id] &&
      (r.1.value.isBlocked <==> IsBlocked(r.0, id)) &&
      r.1.value.row.status == input.status.GetOr(Todo) &&
      r.1.value.row.description == input.description &&
      r.1.value.row.tagId == tagId &&
      Preds(r.0.edges, id) == Elements(input.predecessorIds.GetOr([]))
    ensures r.1.Ok? ==>
      r.1.value.row.priority == input.priority && r.1.value.row.workNotes == input.workNotes &&
      r.1.value.row.dueDate == input.dueDate
    ensures r.1.Ok? <==>
      ValidPriority(input.priority) && (tagId.Some? ==> tagId.value in db.tags) &&
      forall p :: p in input.predecessorIds.GetOr([]) ==> p in db.todos
    ensures Valid(r.0)
  {
    match CreateTodo(db, NewTodoOf(input, tagId), stamp)
    case Err(m) => (db, Err(m))
    case Ok((db2, t)) =>
      CreateTodoKeepsValid(db, NewTodoOf(input, tagId), stamp);
      CreateTodoIsFresh(db, NewTodoOf(input, tagId), stamp);
      assert forall e :: e in db2.edges ==> e.predecessor != t.id;
      AddPredecessors(db2, t.id, input.predecessorIds.GetOr([]))
  }

  /** The predecessor step of `addTodo` for a todo that waits for nothing
      yet: insert each distinct id in first-occurrence order, stopping at
      the first failure. It succeeds exactly when every id may precede the
      todo; for a todo nothing waits for either, as a new one, that is when
      every id is stored and is not the todo itself. */
  function AddPredecessors(db: Db, id: int, ids: seq<int>): (r: (Db, Result<TodoView>))
    requires Valid(db) && id in db.todos && Preds(db.edges, id) == {}
    ensures Valid(r.0) && r.0.todos == db.todos
    ensures r.1.Ok? ==>
      r.1.value.row == r.0.todos[id] && (r.1.value.isBlocked <==> IsBlocked(r.0, id)) &&
      Preds(r.0.edges, id) == Elements(ids)
    ensures r.1.Ok? <==> forall p :: p in ids ==> CanPrecede(db, id, p)
    ensures (forall e :: e in db.edges ==> e.predecessor != id) ==>
      (r.1.Ok? <==> forall p :: p in ids ==> p in db.todos && p != id)
  {
    LeafCanPrecede(db, id, ids);
    InsertDistinct(db, id, ids)
  }

  /** The insert loop over the distinct ids, and the stored todo when every
      insert succeeded. */
  function InsertDistinct(db: Db, id: int, ids: seq<int>): (r: (Db, Result<TodoView>))
    requires Valid(db) && id in db.todos && Preds(db.edges, id) == {}
    ensures Valid(r.0) && r.0.todos == db.todos
    ensures r.1.Ok? <==> forall p :: p in ids ==> CanPrecede(db, id, p)
    ensures r.1.Ok? ==>
      r.1.value.row == r.0.todos[id] && (r.1.value.isBlocked <==> IsBlocked(r.0, id)) &&
      Preds(r.0.edges, id) == Elements(ids)
  {
    var unique := Dedup(ids);
    InsertDedupOutcome(db, id, ids);
    var (db', err) := InsertEach(db, id, unique);
    InsertEachKeepsValid(db, id, unique);
    if err.Some? then (db', Err(err.value))
    else
      assert Elements(unique) == Elements(ids);
      (db', Ok(View(db', db'.todos[id])))
  }

  /** Inserting the distinct ids stops early exactly when some id may not
      precede the todo. */
  lemma InsertDedupOutcome(db: Db, id: int, ids: seq<int>)
    requires Valid(db) && id in db.todos && Preds(db.edges, id) == {}
    ensures InsertEach(db, id, Dedup(ids)).1.None? <==> forall p :: p in ids ==> CanPrecede(db, id, p)
  {
    var unique := Dedup(ids);
    assert forall p :: p in unique <==> p in ids;
  }

  /** A stored todo that nothing waits for may be preceded by exactly the
      other stored todos. */
  lemma LeafCanPrecede(db: Db, id: int, ids: seq<int>)
    requires id in db.todos
    ensures (forall e :: e in db.edges ==> e.predecessor != id) ==>
      ((forall p :: p in ids ==> CanPrecede(db, id, p)) <==> (forall p :: p in ids ==> p in db.todos && p != id))
  {
    if forall e :: e in db.edges ==> e.predecessor != id {
      ReachLeaf(Down(db.edges), id);
    }
  }

  /** The tag step keeps every constraint of the store. */
  lemma AddTagKeepsValid(db: Db, tagPath: Option<string>)
    requires Valid(db) && AddTag(db, tagPath).Ok?
    ensures Valid(AddTag(db, tagPath).value.0) && AddTag(db, tagPath).value.0.nextTodoId == db.nextTodoId
    ensures AddTag(db, tagPath).value.0.todos == db.todos && AddTag(db, tagPath).value.0.edges == db.edges
  {
    if Truthy(tagPath) {
      EnsureKeepsValid(db, tagPath.value);
    }
  }

  /** Inserting predecessors one by one keeps every constraint, whether or
      not an insert fails. */
  lemma InsertEachKeepsValid(db: Db, s: int, ps: seq<int>)
    requires Valid(db) && Distinct(ps)
    requires forall p :: p in ps ==> Edge(s, p) !in db.edges
    ensures Valid(InsertEach(db, s, ps).0)
  {
    var (db', err) := InsertEach(db, s, ps);
    forall e | e in db'.edges ensures e.successor in db'.todos && e.predecessor in db'.todos && e.successor != e.predecessor {
      if e !in db.edges {
        assert CanPrecede(db, s, e.predecessor);
      }
    }
  }

  /** When an insert of a predecessor fails, the todo itself has been created
      and stays: `addTodo` is not atomic. */
  lemma AddTodoKeepsRowOnLateFailure(db: Db, stamp: string, input: AddInput)
    requires Valid(db) && AddTag(db, input.tagPath).Ok?
    requires CreateTodo(AddTag(db, input.tagPath).value.0, NewTodoOf(input, AddTag(db, input.tagPath).value.1), stamp).Ok?
    ensures db.nextTodoId in AddTodo(db, stamp, input).0.todos
  {
  }

  // ---------------------------------------------------------------------------
  // updateTodoWithRelations

  /** The field step of `updateTodoWithRelations`: no write without
      changes, otherwise `updateTodo`. */
  function ChangesWritten(db: Db, id: int, c: TodoChanges): (r: Result<Db>)
    ensures c == NoChanges ==> r == Ok(db)
    ensures c != NoChanges ==> (r.Ok? <==> UpdateTodo(db, id, c).Ok?)
    ensures c != NoChanges && r.Ok? ==> r.value == UpdateTodo(db, id, c).value.0
  {
    if c == NoChanges then Ok(db)
    else
      match UpdateTodo(db, id, c)
      case Err(m) => Err(m)
      case Ok((db1, _)) => Ok(db1)
  }

  /** Replacing one todo's predecessors leaves every other todo's alone. */
  lemma ReplaceFrame(db: Db, s: int, ids: seq<int>)
    requires ReplaceTodoPredecessors(db, s, ids).Ok?
    ensures forall t :: t != s ==> Preds(ReplaceTodoPredecessors(db, s, ids).value.edges, t) == Preds(db.edges, t)
    ensures ReplaceTodoPredecessors(db, s, ids).value.todos == db.todos
  {
    forall t | t != s
      ensures Preds(ReplaceTodoPredecessors(db, s, ids).value.edges, t) == Preds(db.edges, t)
    {
      ReplaceKeepsOtherSuccessors(db, s, ids, t);
    }
  }

  /** `updateTodoWithRelations`: nothing for an unknown id; otherwise the
      changes, when there are any, then the predecessor list, when one is
      given; the result is the todo as stored afterwards. The call fails
      exactly when one of the two steps fails; a failed first step writes
      nothing. Only the row of `id` and its own predecessors change. */
  function UpdateTodoWithRelations(db: Db, id: int, c: TodoChanges, preds: Option<seq<int>>): (r: (Db, Result<Option<TodoView>>))
    requires KeyedById(db.todos)
    ensures id !in db.todos ==> r == (db, Ok(None))
    ensures id in db.todos && c == NoChanges && preds.None? ==> r == (db, Ok(GetTodoById(db, id)))
    ensures id in db.todos ==>
      (r.1.Err? <==>
         ChangesWritten(db, id, c).Err? ||
         (preds.Some? && ReplaceTodoPredecessors(ChangesWritten(db, id, c).value, id, preds.value).Err?))
    ensures id in db.todos && ChangesWritten(db, id, c).Err? ==> r.0 == db
    ensures r.0.todos.Keys == db.todos.Keys
    ensures forall k :: k in db.todos && k != id ==> r.0.todos[k] == db.todos[k]
    ensures forall t :: t != id ==> Preds(r.0.edges, t) == Preds(db.edges, t)
    ensures r.1.Ok? && id in db.todos ==>
      r.1.value.Some? && id in r.0.todos &&
      r.1.value.value.row == Apply(db.todos[id], c) && r.1.value.value.row == r.0.todos[id] &&
      (r.1.value.value.isBlocked <==> IsBlocked(r.0, id))
    ensures preds.None? ==> r.0.edges == db.edges
    ensures preds.Some? && r.1.Ok? && id in db.todos ==> Preds(r.0.edges, id) == Elements(preds.value)
    ensures r.0.tags == db.tags
  {
    if id !in db.todos then (db, Ok(None))
    else
      var step := if c == NoChanges then Ok((db, Some(db.todos[id]))) else UpdateTodo(db, id, c);
      ApplyLaws(db.todos[id], c);
      match step
      case Err(m) => (db, Err(m))
      case Ok((db1, _)) =>
        if preds.None? then (db1, Ok(GetTodoById(db1, id)))
        else
          match ReplaceTodoPredecessors(db1, id, preds.value)
          case Err(m) => (db1, Err(m))
          case Ok(db2) =>
            ReplaceSetsPredecessors(db1, id, preds.value);
            ReplaceFrame(db1, id, preds.value);
            (db2, Ok(GetTodoById(db2, id)))
  }

  /** When the predecessor list is rejected after the changes were written,
      the changes stay: the two steps are separate statements. */
  lemma UpdateKeepsChangesOnFailedReplace(db: Db, id: int, c: TodoChanges, ids: seq<int>)
    requires KeyedById(db.todos) && id in db.todos && c != NoChanges
    requires UpdateTodo(db, id, c).Ok?
    requires ReplaceTodoPredecessors(UpdateTodo(db, id, c).value.0, id, ids).Err?
    ensures UpdateTodoWithRelations(db, id, c, Some(ids)) == (UpdateTodo(db, id, c).value.0, Err(ReplaceTodoPredecessors(UpdateTodo(db, id, c).value.0, id, ids).message))
  {
  }

  lemma UpdateTodoWithRelationsKeepsValid(db: Db, id: int, c: TodoChanges, preds: Option<seq<int>>)
    requires Valid(db)
    ensures Valid(UpdateTodoWithRelations(db, id, c, preds).0)
  {
    if id in db.todos {
      var db1 := if c == NoChanges then db else if UpdateTodo(db, id, c).Ok? then UpdateTodo(db, id, c).value.0 else db;
      if c != NoChanges && UpdateTodo(db, id, c).Ok? {
        UpdateTodoKeepsValid(db, id, c);
      }
      if preds.Some? && ReplaceTodoPredecessors(db1, id, preds.value).Ok? {
        ReplaceKeepsValid(db1, id, preds.value);
      }
    }
  }
}
