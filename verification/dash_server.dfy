/** The server functions of the web dashboard: the checks and the
    normalisation they apply to their input before writing, the tag tree
    they return, and the writes that delete todos, replace predecessors and
    create or rename tags. */
module DashServer {
  import opened Wrappers
  import opened Text
  import opened Numbers
  import opened Closure
  import opened Sorting
  import opened Schema
  import opened Lists
  import opened Tags
  import opened Dependencies
  import opened TodoMutations
  import opened TagForest
  import opened CliParsers

  // ---------------------------------------------------------------------------
  // Priority

  const PriorityError := "Priority must be an integer between 1 and 5"

  /** `validatePriority`: null and undefined pass, so does an integer from
      1 to 5; anything else throws. The integer is handed back. */
  function ValidatePriority(v: Option<real>): (r: Result<Option<int>>)
    ensures r.Ok? <==> v.None? || (IsInteger(v.value) && 1.0 <= v.value <= 5.0)
    ensures r.Ok? ==> ValidPriority(r.value) && r.value.Some? == v.Some?
    ensures r.Ok? && v.Some? ==> r.value.value as real == v.value
    ensures r.Err? ==> r.message == PriorityError
  {
    match v
    case None => Ok(None)
    case Some(x) =>
      if !IsInteger(x) || x < 1.0 || x > 5.0 then Err(PriorityError) else Ok(Some(x.Floor))
  }

  /** The dashboard lets through exactly the integer priorities the
      database's check constraint accepts. */
  lemma ValidatePriorityAgrees(p: Option<int>)
    ensures var v := if p.Some? then Some(p.value as real) else None;
      ValidatePriority(v).Ok? <==> ValidPriority(p)
    ensures var v := if p.Some? then Some(p.value as real) else None;
      ValidatePriority(v).Ok? ==> ValidatePriority(v).value == p
  {
    if p.Some? {
      IntegerOfInt(p.value);
    }
  }

  // ---------------------------------------------------------------------------
  // Optional text

  /** `value?.trim() || null`: absent and blank text become null. */
  function NullIfBlank(v: Option<string>): (r: Option<string>)
    ensures r.None? <==> v.None? || Trim(v.value) == []
    ensures r.Some? ==> r.value == Trim(v.value)
  {
    if v.None? || Trim(v.value) == [] then None else Some(Trim(v.value))
  }

  /** Kept text is non-empty and has no surrounding space, so normalising
      again changes nothing. */
  lemma NullIfBlankIdempotent(v: Option<string>)
    ensures NullIfBlank(v).Some? ==> NullIfBlank(v).value != [] && Trim(NullIfBlank(v).value) == NullIfBlank(v).value
    ensures NullIfBlank(NullIfBlank(v)) == NullIfBlank(v)
  {
    if v.Some? {
      TrimIdempotent(v.value);
    }
  }

  // ---------------------------------------------------------------------------
  // updateDashboardTodo

  /** The input of `updateDashboardTodo`. `None` is an omitted field; for a
      nullable field `Some(None)` is an explicit null. */
  datatype UpdateInput = UpdateInput(
    id: int,
    status: Option<Status>,
    description: Option<string>,
    assignee: Option<Option<string>>,
    assigneeLease: Option<Option<string>>,
    workNotes: Option<Option<string>>,
    priority: Option<Option<real>>,
    dueDate: Option<Option<string>>,
    tagId: Option<Option<int>>)

  /** The change set written to the row; `None` leaves a column alone. */
  datatype ChangeSet = ChangeSet(
    status: Option<Status>,
    description: Option<string>,
    assignee: Option<Option<string>>,
    assigneeLease: Option<Option<string>>,
    workNotes: Option<Option<string>>,
    priority: Option<Option<int>>,
    dueDate: Option<Option<string>>,
    tagId: Option<Option<int>>)

  predicate NothingSupplied(u: UpdateInput) {
    u.status.None? && u.description.None? && u.assignee.None? && u.assigneeLease.None? &&
    u.workNotes.None? && u.priority.None? && u.dueDate.None? && u.tagId.None?
  }

  /** `Object.keys(changes).length === 0`: no write happens. */
  predicate IsEmpty(c: ChangeSet) {
    c.status.None? && c.description.None? && c.assignee.None? && c.assigneeLease.None? &&
    c.workNotes.None? && c.priority.None? && c.dueDate.None? && c.tagId.None?
  }

  /** Text of a change set as it would be stored: no blank text. */
  predicate Normalised(c: ChangeSet) {
    (c.description.Some? ==> Trim(c.description.value) == c.description.value) &&
    (c.assignee.Some? && c.assignee.value.Some? ==> c.assignee.value.value != [] && Trim(c.assignee.value.value) == c.assignee.value.value) &&
    (c.assigneeLease.Some? && c.assigneeLease.value.Some? ==> c.assigneeLease.value.value != [] && Trim(c.assigneeLease.value.value) == c.assigneeLease.value.value) &&
    (c.workNotes.Some? && c.workNotes.value.Some? ==> c.workNotes.value.value != [] && Trim(c.workNotes.value.value) == c.workNotes.value.value) &&
    (c.priority.Some? ==> ValidPriority(c.priority.value))
  }

  /** The change set of `updateDashboardTodo`: exactly the supplied fields,
      the description trimmed, blank assignee, lease and notes nulled, the
      priority validated; a bad priority throws before anything is written. */
  function UpdateChanges(u: UpdateInput): (r: Result<ChangeSet>)
    ensures r.Err? <==> u.priority.Some? && ValidatePriority(u.priority.value).Err?
    ensures r.Err? ==> r.message == PriorityError
    ensures r.Ok? ==> Normalised(r.value)
    ensures r.Ok? ==> (IsEmpty(r.value) <==> NothingSupplied(u))
    ensures r.Ok? ==>
      r.value.status == u.status && r.value.dueDate == u.dueDate && r.value.tagId == u.tagId &&
      (r.value.description.Some? <==> u.description.Some?) &&
      (r.value.description.Some? ==> r.value.description.value == Trim(u.description.value)) &&
      (r.value.assignee.Some? <==> u.assignee.Some?) &&
      (r.value.assigneeLease.Some? <==> u.assigneeLease.Some?) &&
      (r.value.workNotes.Some? <==> u.workNotes.Some?) &&
      (r.value.priority.Some? <==> u.priority.Some?)
    ensures r.Ok? && u.assignee.Some? ==> r.value.assignee == Some(NullIfBlank(u.assignee.value))
    ensures r.Ok? && u.assigneeLease.Some? ==> r.value.assigneeLease == Some(NullIfBlank(u.assigneeLease.value))
    ensures r.Ok? && u.workNotes.Some? ==> r.value.workNotes == Some(NullIfBlank(u.workNotes.value))
    ensures r.Ok? && u.priority.Some? ==> r.value.priority == Some(ValidatePriority(u.priority.value).value)
  {
    var priority :- match u.priority
      case None => Ok(None)
      case Some(p) =>
        var checked :- ValidatePriority(p);
        Ok(Some(checked));
    var c := ChangeSet(
      status := u.status,
      description := if u.description.Some? then Some(Trim(u.description.value)) else None,
      assignee := if u.assignee.Some? then Some(NullIfBlank(u.assignee.value)) else None,
      assigneeLease := if u.assigneeLease.Some? then Some(NullIfBlank(u.assigneeLease.value)) else None,
      workNotes := if u.workNotes.Some? then Some(NullIfBlank(u.workNotes.value)) else None,
      priority := priority,
      dueDate := u.dueDate,
      tagId := u.tagId);
    NormalisedChanges(u, c);
    Ok(c)
  }

  lemma NormalisedChanges(u: UpdateInput, c: ChangeSet)
    requires c.description == (if u.description.Some? then Some(Trim(u.description.value)) else None)
    requires c.assignee == (if u.assignee.Some? then Some(NullIfBlank(u.assignee.value)) else None)
    requires c.assigneeLease == (if u.assigneeLease.Some? then Some(NullIfBlank(u.assigneeLease.value)) else None)
    requires c.workNotes == (if u.workNotes.Some? then Some(NullIfBlank(u.workNotes.value)) else None)
    requires c.priority.Some? ==> ValidPriority(c.priority.value)
    ensures Normalised(c)
  {
    if u.description.Some? {
      TrimIdempotent(u.description.value);
    }
    if u.assignee.Some? {
      NullIfBlankIdempotent(u.assignee.value);
    }
    if u.assigneeLease.Some? {
      NullIfBlankIdempotent(u.assigneeLease.value);
    }
    if u.workNotes.Some? {
      NullIfBlankIdempotent(u.workNotes.value);
    }
  }

  /** Blank or null text clears its column rather than being skipped, and
      kept text is stored trimmed: `"  "` and `null` both write null, `" ann "`
      writes `"ann"`. */
  lemma BlankTextClears(u: UpdateInput)
    requires UpdateChanges(u).Ok?
    ensures u.assignee.Some? && (u.assignee.value.None? || Trim(u.assignee.value.value) == []) ==>
      UpdateChanges(u).value.assignee == Some(None)
    ensures u.assigneeLease.Some? && (u.assigneeLease.value.None? || Trim(u.assigneeLease.value.value) == []) ==>
      UpdateChanges(u).value.assigneeLease == Some(None)
    ensures u.workNotes.Some? && (u.workNotes.value.None? || Trim(u.workNotes.value.value) == []) ==>
      UpdateChanges(u).value.workNotes == Some(None)
    ensures u.assignee.Some? && u.assignee.value.Some? && Trim(u.assignee.value.value) != [] ==>
      UpdateChanges(u).value.assignee == Some(Some(Trim(u.assignee.value.value)))
    ensures u.assigneeLease.Some? && u.assigneeLease.value.Some? && Trim(u.assigneeLease.value.value) != [] ==>
      UpdateChanges(u).value.assigneeLease == Some(Some(Trim(u.assigneeLease.value.value)))
    ensures u.workNotes.Some? && u.workNotes.value.Some? && Trim(u.workNotes.value.value) != [] ==>
      UpdateChanges(u).value.workNotes == Some(Some(Trim(u.workNotes.value.value)))
  {
  }

  /** A supplied priority is written as the integer it denotes, and an
      explicit null clears the column. */
  lemma PriorityWritten(u: UpdateInput)
    requires UpdateChanges(u).Ok? && u.priority.Some?
    ensures u.priority.value.None? ==> UpdateChanges(u).value.priority == Some(None)
    ensures u.priority.value.Some? ==>
      UpdateChanges(u).value.priority.value.Some? &&
      UpdateChanges(u).value.priority.value.value as real == u.priority.value.value &&
      1 <= UpdateChanges(u).value.priority.value.value <= 5
  {
  }

  /** The input that asks for exactly a given change set. */
  function AsInput(id: int, c: ChangeSet): UpdateInput {
    UpdateInput(id, c.status, c.description, c.assignee, c.assigneeLease, c.workNotes,
      match c.priority
      case None => None
      case Some(p) => Some(if p.Some? then Some(p.value as real) else None),
      c.dueDate, c.tagId)
  }

  /** A normalised change set, sent again, is accepted unchanged. */
  lemma UpdateChangesRoundTrip(id: int, c: ChangeSet)
    requires Normalised(c)
    ensures UpdateChanges(AsInput(id, c)) == Ok(c)
  {
    var u := AsInput(id, c);
    if c.priority.Some? {
      ValidatePriorityAgrees(c.priority.value);
    }
    var r := UpdateChanges(u);
    assert r.Ok?;
    KeptText(c.assignee);
    KeptText(c.assigneeLease);
    KeptText(c.workNotes);
    assert r.value.description == c.description;
    assert r.value.priority == c.priority;
  }

  /** Text that is already normalised passes through `NullIfBlank`. */
  lemma KeptText(v: Option<Option<string>>)
    requires v.Some? && v.value.Some? ==> v.value.value != [] && Trim(v.value.value) == v.value.value
    ensures v.Some? ==> NullIfBlank(v.value) == v.value
  {
  }

  /** Normalising twice is normalising once. */
  lemma UpdateChangesIdempotent(u: UpdateInput)
    requires UpdateChanges(u).Ok?
    ensures UpdateChanges(AsInput(u.id, UpdateChanges(u).value)) == UpdateChanges(u)
  {
    UpdateChangesRoundTrip(u.id, UpdateChanges(u).value);
  }

  // ---------------------------------------------------------------------------
  // createDashboardTodo

  const DescriptionError := "Description is required"

  datatype CreateInput = CreateInput(
    description: string,
    status: Option<Status>,
    tagId: Option<int>,
    priority: Option<real>,
    dueDate: Option<string>,
    workNotes: Option<string>,
    assignee: Option<string>,
    assigneeLease: Option<string>,
    predecessorIds: Option<seq<int>>)

  /** The row and dependencies `createDashboardTodo` inserts. */
  datatype Insertion = Insertion(
    description: string,
    status: Status,
    tagId: Option<int>,
    priority: Option<int>,
    dueDate: Option<string>,
    workNotes: Option<string>,
    assignee: Option<string>,
    assigneeLease: Option<string>,
    predecessorIds: seq<int>)

  /** The checks and defaults of `createDashboardTodo` before it writes: a
      blank description throws first, then a bad priority; the status
      defaults to todo, blank optional text becomes null, and the
      predecessor ids are deduplicated in first-occurrence order. */
  function PrepareCreate(input: CreateInput): (r: Result<Insertion>)
    ensures Trim(input.description) == [] ==> r == Err(DescriptionError)
    ensures Trim(input.description) != [] && ValidatePriority(input.priority).Err? ==> r == Err(PriorityError)
    ensures r.Ok? <==> Trim(input.description) != [] && ValidatePriority(input.priority).Ok?
    ensures r.Ok? ==>
      r.value.description != [] && r.value.description == Trim(input.description) &&
      r.value.status == input.status.GetOr(Todo) &&
      r.value.tagId == input.tagId && r.value.dueDate == input.dueDate &&
      ValidPriority(r.value.priority) &&
      (r.value.priority.None? <==> input.priority.None?) &&
      (r.value.priority.Some? ==> r.value.priority.value as real == input.priority.value) &&
      r.value.workNotes == NullIfBlank(input.workNotes) &&
      r.value.assignee == NullIfBlank(input.assignee) &&
      r.value.assigneeLease == NullIfBlank(input.assigneeLease)
    ensures r.Ok? ==> Distinct(r.value.predecessorIds)
    ensures r.Ok? ==> forall p :: p in r.value.predecessorIds <==> p in input.predecessorIds.GetOr([])
  {
    var description := Trim(input.description);
    if description == [] then Err(DescriptionError)
    else
      var priority :- ValidatePriority(input.priority);
      Ok(Insertion(
        description := description,
        status := input.status.GetOr(Todo),
        tagId := input.tagId,
        priority := priority,
        dueDate := input.dueDate,
        workNotes := NullIfBlank(input.workNotes),
        assignee := NullIfBlank(input.assignee),
        assigneeLease := NullIfBlank(input.assigneeLease),
        predecessorIds := Dedup(input.predecessorIds.GetOr([]))))
  }

  /** Sending a prepared insertion again prepares the same insertion. */
  lemma PrepareCreateIdempotent(input: CreateInput)
    requires PrepareCreate(input).Ok?
    ensures var i := PrepareCreate(input).value;
      var again := CreateInput(i.description, Some(i.status), i.tagId,
        if i.priority.Some? then Some(i.priority.value as real) else None,
        i.dueDate, i.workNotes, i.assignee, i.assigneeLease, Some(i.predecessorIds));
      PrepareCreate(again) == PrepareCreate(input)
  {
    var i := PrepareCreate(input).value;
    TrimIdempotent(input.description);
    NullIfBlankIdempotent(input.workNotes);
    NullIfBlankIdempotent(input.assignee);
    NullIfBlankIdempotent(input.assigneeLease);
    ValidatePriorityAgrees(i.priority);
    DedupIdempotent(input.predecessorIds.GetOr([]));
  }

  // ---------------------------------------------------------------------------
  // deleteDashboardTodos

  /** Deletes the todos of `ids` one after the other; the ids deleted, in
      order. */
  function DeleteEach(db: Db, ids: seq<int>): (r: (Db, seq<int>))
    requires Distinct(ids)
    decreases |ids|
    ensures r.0.todos == db.todos - Elements(ids) && r.0.tags == db.tags
    ensures r.0.nextTodoId == db.nextTodoId && r.0.nextTagId == db.nextTagId
    ensures forall e :: e in r.0.edges <==> e in db.edges && e.successor !in ids && e.predecessor !in ids
    ensures Distinct(r.1) && forall x :: x in r.1 <==> x in ids && x in db.todos
  {
    if ids == [] then (db, [])
    else
      var (d1, gone) := DeleteTodo(db, ids[0]);
      HeadNotInTail(ids);
      var (d2, rest) := DeleteEach(d1, ids[1..]);
      assert forall x :: x in ids <==> x == ids[0] || x in ids[1..];
      if gone.Some? then
        DistinctConcat([ids[0]], rest);
        (d2, [ids[0]] + rest)
      else (d2, rest)
  }

  /** `deleteDashboardTodos`: the ids deduplicated; none is a no-op
      returning none; otherwise the todos with those ids are deleted with
      their dependencies, and the ids of the rows that existed come back. */
  function DeleteDashboardTodos(db: Db, ids: seq<int>): (r: (Db, seq<int>))
    ensures ids == [] ==> r == (db, [])
    ensures r.0.todos == db.todos - Elements(ids)
    ensures forall e :: e in r.0.edges <==> e in db.edges && e.successor !in ids && e.predecessor !in ids
    ensures Distinct(r.1) && forall x :: x in r.1 <==> x in ids && x in db.todos
  {
    var unique := Dedup(ids);
    if unique == [] then (db, [])
    else DeleteEach(db, unique)
  }

  /** Deleting keeps the store valid, and deleting the same ids again
      deletes nothing. */
  lemma DeleteDashboardTodosAgain(db: Db, ids: seq<int>)
    ensures DeleteDashboardTodos(DeleteDashboardTodos(db, ids).0, ids).1 == []
  {
    HasMember(DeleteDashboardTodos(DeleteDashboardTodos(db, ids).0, ids).1);
  }

  lemma DeleteDashboardTodosKeepsValid(db: Db, ids: seq<int>)
    requires Valid(db)
    ensures Valid(DeleteDashboardTodos(db, ids).0)
  {
    var d := DeleteDashboardTodos(db, ids).0;
    assert d.edges <= db.edges;
    AcyclicSubset(Down(d.edges), Down(db.edges));
  }

  // ---------------------------------------------------------------------------
  // setDashboardTodoPredecessors

  /** The predecessor list `setDashboardTodoPredecessors` writes: the input
      deduplicated, without the todo's own id. */
  function PredecessorList(s: int, ids: seq<int>): (r: seq<int>)
    ensures Distinct(r) && forall p :: p in r <==> p in ids && p != s
  {
    FilterOut(Dedup(ids), s)
  }

  /** `setDashboardTodoPredecessors` as written: the old predecessors are
      deleted in one statement, then the new ones are inserted in a second
      (multi-row, so all or nothing) statement, with no transaction around
      the two. When the insert fails the deletion stays. */
  function SetPredecessorsAsWritten(db: Db, s: int, ids: seq<int>): (r: (Db, Option<string>))
    ensures r.1.None? <==> ReplaceTodoPredecessors(db, s, PredecessorList(s, ids)).Ok?
    ensures r.1.None? ==>
      ReplaceTodoPredecessors(db, s, PredecessorList(s, ids)).Ok? &&
      r.0 == ReplaceTodoPredecessors(db, s, PredecessorList(s, ids)).value
    ensures r.1.Some? ==> r.0 == WithoutPredecessors(db, s)
  {
    var ps := PredecessorList(s, ids);
    if ps == [] then
      var cleared := WithoutPredecessors(db, s);
      assert EdgesTo(s, ps) == {};
      assert forall p :: p !in ps;
      assert ReplaceTodoPredecessors(db, s, ps).Ok?;
      assert cleared.(edges := cleared.edges + EdgesTo(s, ps)) == cleared;
      (cleared, None)
    else
      var replaced := ReplaceTodoPredecessors(db, s, ps);
      if replaced.Ok? then (replaced.value, None)
      else (WithoutPredecessors(db, s), Some(replaced.message))
  }

  /** As written, a rejected list still erases every predecessor. */
  lemma AsWrittenLosesPredecessors(db: Db, s: int, ids: seq<int>)
    requires SetPredecessorsAsWritten(db, s, ids).1.Some?
    ensures Preds(SetPredecessorsAsWritten(db, s, ids).0.edges, s) == {}
  {
  }

  /** The concrete case: todo 2 waits for 1 and todo 3 waits for 2. Asking
      for 2 to wait for 1 and 3 closes a cycle and is rejected, yet 2 has
      lost its predecessor 1. */
  lemma AsWrittenCounterexample()
    ensures var db := ChainOfThree();
      SetPredecessorsAsWritten(db, 2, [1, 3]).1.Some? &&
      Preds(db.edges, 2) == {1} &&
      Preds(SetPredecessorsAsWritten(db, 2, [1, 3]).0.edges, 2) == {}
  {
    var db := ChainOfThree();
    var cleared := WithoutPredecessors(db, 2);
    assert Edge(3, 2) in cleared.edges;
    ReachStep(Down(cleared.edges), 2, 3);
    assert !CanPrecede(cleared, 2, 3);
    var ps := PredecessorList(2, [1, 3]);
    assert 3 in ps;
    ChainPredecessors();
  }

  lemma ChainPredecessors()
    ensures Preds(ChainOfThree().edges, 2) == {1}
  {
    forall p ensures p in Preds(ChainOfThree().edges, 2) <==> p == 1 {
    }
  }

  function Row(id: int): TodoRow {
    TodoRow(id, "step", None, Todo, None, None, None, None, None, "", "")
  }

  function ChainOfThree(): Db {
    Db(map[1 := Row(1), 2 := Row(2), 3 := Row(3)], map[], {Edge(2, 1), Edge(3, 2)}, 4, 1)
  }

  /** The intended behaviour, as in `replaceTodoPredecessors`: delete and
      insert inside one transaction. On success the todo waits for exactly
      the ids given other than its own; on failure nothing changes. */
  function SetDashboardTodoPredecessors(db: Db, s: int, ids: seq<int>): (r: (Db, Option<string>))
    ensures r.1.None? ==> Preds(r.0.edges, s) == Elements(ids) - {s}
    ensures r.1.None? ==> forall t :: t != s ==> Preds(r.0.edges, t) == Preds(db.edges, t)
    ensures r.1.None? ==> r.0.todos == db.todos && r.0.tags == db.tags
    ensures r.1.Some? ==> r.0 == db
    ensures r.1.Some? <==> exists p :: p in ids && p != s && !CanPrecede(WithoutPredecessors(db, s), s, p)
  {
    var ps := PredecessorList(s, ids);
    match ReplaceTodoPredecessors(db, s, ps)
    case Ok(d) =>
      ReplaceSetsPredecessors(db, s, ps);
      forall t | t != s ensures Preds(d.edges, t) == Preds(db.edges, t) {
        ReplaceKeepsOtherSuccessors(db, s, ps, t);
      }
      (d, None)
    case Err(m) =>
      var p :| p in ps && !CanPrecede(WithoutPredecessors(db, s), s, p);
      (db, Some(m))
  }

  /** The corrected write keeps the store valid. */
  lemma SetPredecessorsKeepsValid(db: Db, s: int, ids: seq<int>)
    requires Valid(db)
    ensures Valid(SetDashboardTodoPredecessors(db, s, ids).0)
  {
    var ps := PredecessorList(s, ids);
    if ReplaceTodoPredecessors(db, s, ps).Ok? {
      ReplaceKeepsValid(db, s, ps);
    }
  }

  /** The corrected write fixes the counterexample: the rejected request
      leaves todo 2 waiting for 1. */
  lemma CorrectedCounterexample()
    ensures var db := ChainOfThree();
      SetDashboardTodoPredecessors(db, 2, [1, 3]) == (db, SetDashboardTodoPredecessors(db, 2, [1, 3]).1) &&
      SetDashboardTodoPredecessors(db, 2, [1, 3]).1.Some?
  {
    AsWrittenCounterexample();
  }

  // ---------------------------------------------------------------------------
  // Tags

  const DashboardTagNameError := "Tag name must be lowercase alphanumeric"

  /** `renameDashboardTag`: the trimmed, lower-cased name must match
      `[a-z0-9]+`; the update then fails only on the unique index of
      sibling names. A missing id updates nothing. */
  function RenameDashboardTag(db: Db, id: int, name: string): (r: Result<Db>)
    ensures NormalizeName(name, DashboardTagNameError).Err? ==> r == Err(DashboardTagNameError)
    ensures r.Ok? && id !in db.tags ==> r.value == db
    ensures r.Ok? && id in db.tags ==>
      r.value == db.(tags := db.tags[id := db.tags[id].(name := Lower(Trim(name)))])
    ensures NormalizeName(name, DashboardTagNameError).Ok? && id in db.tags ==>
      (r.Ok? <==> forall k :: k in db.tags && k != id && db.tags[k].parentId == db.tags[id].parentId ==>
        db.tags[k].name != Lower(Trim(name)))
  {
    var n :- NormalizeName(name, DashboardTagNameError);
    if id !in db.tags then Ok(db)
    else if exists k :: k in db.tags && k != id && db.tags[k].parentId == db.tags[id].parentId && db.tags[k].name == n then
      Err(UniqueError)
    else Ok(db.(tags := db.tags[id := db.tags[id].(name := n)]))
  }

  /** Renaming keeps the store valid: the new name is a tag name, and
      the parent pointers are untouched. */
  lemma RenameKeepsValid(db: Db, id: int, name: string)
    requires Valid(db) && RenameDashboardTag(db, id, name).Ok?
    ensures Valid(RenameDashboardTag(db, id, name).value)
  {
    if id in db.tags {
      var n := Lower(Trim(name));
      RenamedTagsValid(db.tags, db.nextTagId, id, n);
      var tags := db.tags[id := db.tags[id].(name := n)];
      assert tags.Keys == db.tags.Keys;
    }
  }

  /** A new name that is a tag name and no sibling's keeps the tag table
      valid. */
  lemma RenamedTagsValid(tags: map<int, TagRow>, nextTagId: int, id: int, n: string)
    requires TagsValid(tags, nextTagId) && id in tags && ValidTagName(n)
    requires forall k :: k in tags && k != id && tags[k].parentId == tags[id].parentId ==> tags[k].name != n
    ensures TagsValid(tags[id := tags[id].(name := n)], nextTagId)
  {
    var renamed := tags[id := tags[id].(name := n)];
    RenameKeepsParents(tags, id, n);
    assert UniqueTagNames(renamed) by {
      forall a, b | a in renamed && b in renamed && a != b && renamed[a].parentId == renamed[b].parentId
        ensures renamed[a].name != renamed[b].name
      {
      }
    }
  }

  /** Renaming a tag changes no parent pointer. */
  lemma RenameKeepsParents(tags: map<int, TagRow>, id: int, n: string)
    requires id in tags
    ensures ParentRel(tags[id := tags[id].(name := n)]) == ParentRel(tags)
  {
    var renamed := tags[id := tags[id].(name := n)];
    forall q | q in ParentRel(renamed) ensures q in ParentRel(tags) {
      assert q.1 in tags && tags[q.1].parentId == Some(q.0);
    }
    forall q | q in ParentRel(tags) ensures q in ParentRel(renamed) {
      assert q.1 in renamed && renamed[q.1].parentId == Some(q.0);
    }
  }

  /** `createDashboardTag`: the name as for renaming; the parent must exist
      and no sibling may have the name. The new tag gets the next id. */
  function CreateDashboardTag(db: Db, name: string, parentId: Option<int>): (r: Result<(Db, int)>)
    requires CanWalk(db)
    ensures NormalizeName(name, DashboardTagNameError).Err? ==> r == Err(DashboardTagNameError)
    ensures NormalizeName(name, DashboardTagNameError).Ok? ==>
      (r.Ok? <==> (parentId.Some? ==> parentId.value in db.tags) && FindTag(db.tags, Lower(Trim(name)), parentId).None?)
    ensures r.Ok? ==> r.value.1 == db.nextTagId && r.value.1 !in db.tags
    ensures r.Ok? ==> r.value.0 == db.(tags := db.tags[r.value.1 := TagRow(r.value.1, Lower(Trim(name)), parentId)], nextTagId := db.nextTagId + 1)
    ensures r.Ok? ==> CanWalk(r.value.0)
  {
    var n :- NormalizeName(name, DashboardTagNameError);
    if parentId.Some? && parentId.value !in db.tags then Err(ForeignKeyError)
    else if FindTag(db.tags, n, parentId).Some? then Err(UniqueError)
    else Ok(CreateTag(db, n, parentId))
  }

  /** The created tag is found again under its parent, and the store stays
      valid. */
  lemma CreateDashboardTagKeepsValid(db: Db, name: string, parentId: Option<int>)
    requires Valid(db) && CreateDashboardTag(db, name, parentId).Ok?
    ensures var (d, id) := CreateDashboardTag(db, name, parentId).value;
      Valid(d) && FindTag(d.tags, Lower(Trim(name)), parentId) == Some(id)
  {
    var n := Lower(Trim(name));
    CreateKeepsTagsValid(db, n, parentId);
  }

  // ---------------------------------------------------------------------------
  // buildTagTree

  /** `new Map(rows.map(...))`: later rows win over earlier ones with the
      same id. */
  function TagMap(rows: seq<TagRow>): (m: map<int, TagRow>)
    ensures TagsKeyedById(m)
    ensures forall k :: k in m <==> exists i :: 0 <= i < |rows| && rows[i].id == k
    ensures forall k :: k in m ==> m[k] in rows
  {
    if rows == [] then map[]
    else
      var last := rows[|rows| - 1];
      var m := TagMap(rows[..|rows| - 1]);
      assert forall i :: 0 <= i < |rows| - 1 ==> rows[..|rows| - 1][i] == rows[i];
      m[last.id := last]
  }

  /** `buildTagTree`: every tag exactly once, a tag without a parent or
      with a missing parent at the top, siblings sorted by (name, id). The
      rows come from a database whose trigger forbids a parent cycle; on
      one, the source's sort (which starts at the roots) would leave the
      tags of the cycle out of the tree. */
  function DashboardTagTree(rows: seq<TagRow>): (r: seq<TagNode>)
    requires Acyclic(ParentRel(TagMap(rows)))
    ensures Elements(Rows(r)) == RootRows(TagMap(rows))
    ensures SortedBy(BySibling(), Rows(r))
    ensures Elements(PreorderAll(r)) == set i | 0 <= i < |rows| :: rows[i].id
    ensures Distinct(PreorderAll(r))
    ensures forall i :: 0 <= i < |r| ==> Built(TagMap(rows), r[i])
  {
    var tags := TagMap(rows);
    ForestExactlyOnce(tags);
    ForestFacts(tags);
    Forest(tags)
  }
}
