/** The read queries over todos: the filter conditions of `buildGetConditions`,
    the ordered and limited listing `getTodosForGet`, its count, the ordered
    fetch by an id list, and the ready list. A row comes back together with
    its derived blocked flag (`mapBlocked`). */
module TodoQueries {
  import opened Wrappers
  import opened Text
  import opened Sorting
  import opened Schema
  import opened Scheduling
  import opened Lists

  /** A row as returned to callers, with `isBlocked` computed. */
  datatype TodoView = TodoView(row: TodoRow, isBlocked: bool)

  function View(db: Db, t: TodoRow): (v: TodoView)
    ensures v.row == t && (v.isBlocked <==> IsBlocked(db, t.id))
  {
    TodoView(t, IsBlocked(db, t.id))
  }

  function Views(db: Db, rows: seq<TodoRow>): (r: seq<TodoView>)
    ensures |r| == |rows|
    ensures forall i :: 0 <= i < |r| ==> r[i] == View(db, rows[i])
  {
    if rows == [] then [] else [View(db, rows[0])] + Views(db, rows[1..])
  }

  /** `getTodoById`. */
  function GetTodoById(db: Db, id: int): (r: Option<TodoView>)
    ensures r.Some? <==> id in db.todos
    ensures r.Some? ==> r.value.row == db.todos[id] && (r.value.isBlocked <==> IsBlocked(db, r.value.row.id))
  {
    if id in db.todos then Some(View(db, db.todos[id])) else None
  }

  // ---------------------------------------------------------------------------
  // Filters

  /** The options of `buildGetConditions`; `None` is an option not given. */
  datatype Filters = Filters(
    statuses: seq<Status>,
    blocked: Option<bool>,
    minPriority: Option<int>,
    dueBefore: Option<string>,
    dueAfter: Option<string>,
    tagId: Option<int>,
    assignee: Option<string>,
    hasAssignee: Option<bool>,
    leaseExpired: Option<bool>)

  const NoFilters := Filters([], None, None, None, None, None, None, None, None)

  /** A string option that JavaScript treats as true: given and non-empty. */
  predicate Truthy(s: Option<string>) {
    s.Some? && s.value != ""
  }

  /** The single conditions, each true when its option is absent. */
  predicate StatusOk(f: Filters, t: TodoRow) {
    |f.statuses| == 0 || t.status in f.statuses
  }

  predicate BlockedOk(db: Db, f: Filters, t: TodoRow) {
    f.blocked.None? || (f.blocked.value <==> IsBlocked(db, t.id))
  }

  predicate MinPriorityOk(f: Filters, t: TodoRow) {
    f.minPriority.None? || (t.priority.Some? && t.priority.value >= f.minPriority.value)
  }

  predicate DueBeforeOk(f: Filters, t: TodoRow) {
    !Truthy(f.dueBefore) || (t.dueDate.Some? && LexLe(t.dueDate.value, f.dueBefore.value))
  }

  predicate DueAfterOk(f: Filters, t: TodoRow) {
    !Truthy(f.dueAfter) || (t.dueDate.Some? && LexLe(f.dueAfter.value, t.dueDate.value))
  }

  predicate TagOk(db: Db, f: Filters, t: TodoRow) {
    f.tagId.None? || InSubtree(db.tags, t.tagId, f.tagId.value)
  }

  /** SQL `assignee = ?` is never true for a null assignee. */
  predicate AssigneeOk(f: Filters, t: TodoRow) {
    f.assignee.None? || (t.assignee.Some? && t.assignee.value == f.assignee.value)
  }

  predicate HasAssigneeOk(f: Filters, t: TodoRow) {
    f.hasAssignee.None? || (f.hasAssignee.value <==> t.assignee.Some?)
  }

  /** A lease has expired when it is set and not after `now`. */
  predicate LeaseExpired(t: TodoRow, now: nat) {
    t.lease.Some? && t.lease.value <= now
  }

  predicate LeaseOk(f: Filters, now: nat, t: TodoRow) {
    f.leaseExpired.None? ||
    (if f.leaseExpired.value then LeaseExpired(t, now) else t.lease.None? || t.lease.value > now)
  }

  /** The conjunction of all conditions given. */
  predicate Matches(db: Db, now: nat, f: Filters, t: TodoRow) {
    StatusOk(f, t) && BlockedOk(db, f, t) && MinPriorityOk(f, t) &&
    DueBeforeOk(f, t) && DueAfterOk(f, t) && TagOk(db, f, t) &&
    AssigneeOk(f, t) && HasAssigneeOk(f, t) && LeaseOk(f, now, t)
  }

  datatype Field = Statuses | Blocked | MinPriority | DueBefore | DueAfter | Tag | Assignee | HasAssignee | Lease

  /** `f` with every option except `k` removed. */
  function Only(f: Filters, k: Field): (g: Filters)
    ensures k != Statuses ==> g.statuses == []
  {
    match k
    case Statuses => NoFilters.(statuses := f.statuses)
    case Blocked => NoFilters.(blocked := f.blocked)
    case MinPriority => NoFilters.(minPriority := f.minPriority)
    case DueBefore => NoFilters.(dueBefore := f.dueBefore)
    case DueAfter => NoFilters.(dueAfter := f.dueAfter)
    case Tag => NoFilters.(tagId := f.tagId)
    case Assignee => NoFilters.(assignee := f.assignee)
    case HasAssignee => NoFilters.(hasAssignee := f.hasAssignee)
    case Lease => NoFilters.(leaseExpired := f.leaseExpired)
  }

  /** The filters are conjunctive: a row matches the options together exactly
      when it matches each one alone, and no options match every row. */
  lemma FiltersConjunctive(db: Db, now: nat, f: Filters, t: TodoRow)
    ensures Matches(db, now, NoFilters, t)
    ensures Matches(db, now, f, t) <==> forall k :: Matches(db, now, Only(f, k), t)
  {
    NoFiltersMatch(db, now, t);
    MatchesByField(db, now, f, t);
    forall k ensures Matches(db, now, Only(f, k), t) <==> FieldOk(db, now, f, k, t) {
      OnlyField(db, now, f, k, t);
    }
  }

  lemma NoFiltersMatch(db: Db, now: nat, t: TodoRow)
    ensures Matches(db, now, NoFilters, t)
  {
  }

  /** A row matches the options exactly when it meets each option's
      condition. */
  lemma MatchesByField(db: Db, now: nat, f: Filters, t: TodoRow)
    ensures Matches(db, now, f, t) <==> forall k :: FieldOk(db, now, f, k, t)
  {
    if forall k :: FieldOk(db, now, f, k, t) {
      assert FieldOk(db, now, f, Statuses, t) && FieldOk(db, now, f, Blocked, t);
      assert FieldOk(db, now, f, MinPriority, t) && FieldOk(db, now, f, DueBefore, t);
      assert FieldOk(db, now, f, DueAfter, t) && FieldOk(db, now, f, Tag, t);
      assert FieldOk(db, now, f, Assignee, t) && FieldOk(db, now, f, HasAssignee, t);
      assert FieldOk(db, now, f, Lease, t);
    }
  }

  /** The condition of a single option. */
  predicate FieldOk(db: Db, now: nat, f: Filters, k: Field, t: TodoRow) {
    match k
    case Statuses => StatusOk(f, t)
    case Blocked => BlockedOk(db, f, t)
    case MinPriority => MinPriorityOk(f, t)
    case DueBefore => DueBeforeOk(f, t)
    case DueAfter => DueAfterOk(f, t)
    case Tag => TagOk(db, f, t)
    case Assignee => AssigneeOk(f, t)
    case HasAssignee => HasAssigneeOk(f, t)
    case Lease => LeaseOk(f, now, t)
  }

  /** Matching one option alone is that option's condition. */
  lemma OnlyField(db: Db, now: nat, f: Filters, k: Field, t: TodoRow)
    ensures Matches(db, now, Only(f, k), t) <==> FieldOk(db, now, f, k, t)
  {
    match k
    case Statuses =>
    case Blocked =>
    case MinPriority =>
    case DueBefore =>
    case DueAfter =>
    case Tag =>
    case Assignee =>
    case HasAssignee =>
    case Lease =>
  }

  // ---------------------------------------------------------------------------
  // Listing and counting

  /** The stored rows satisfying `f`. */
  function MatchingRows(db: Db, now: nat, f: Filters): (r: set<TodoRow>)
    requires KeyedById(db.todos)
    ensures IdsDistinct(r)
    ensures forall t :: t in r <==> t.id in db.todos && db.todos[t.id] == t && Matches(db, now, f, t)
  {
    set k | k in db.todos && Matches(db, now, f, db.todos[k]) :: db.todos[k]
  }

  /** The rows of `getTodosForGet`: the matching rows ordered by `o`, of
      which the first `limit` are kept (a negative limit keeps all). The
      result is the top of the order: every matching row left out comes
      after every row returned. */
  function ListRows(db: Db, now: nat, f: Filters, o: Ordering, limit: int): (r: seq<TodoRow>)
    requires KeyedById(db.todos)
    ensures Elements(r) <= MatchingRows(db, now, f)
    ensures SortedBy(Before(o), r)
    ensures 0 <= limit ==> |r| <= limit
    ensures |r| == if 0 <= limit < |MatchingRows(db, now, f)| then limit else |MatchingRows(db, now, f)|
    ensures forall t, i :: t in MatchingRows(db, now, f) && t !in Elements(r) && 0 <= i < |r| ==> Precedes(o, r[i], t)
  {
    var m := MatchingRows(db, now, f);
    PrecedesStrictTotal(o, m);
    var all := SortSet(Before(o), m);
    var r := Take(all, limit);
    TakeBeforeRest(Before(o), all, limit);
    r
  }

  /** The rows of a list of views. */
  function RowsOfViews(vs: seq<TodoView>): (r: seq<TodoRow>)
    ensures |r| == |vs| && forall i :: 0 <= i < |vs| ==> r[i] == vs[i].row
  {
    if vs == [] then [] else [vs[0].row] + RowsOfViews(vs[1..])
  }

  /** `getTodosForGet`, with each row's blocked flag: the first `limit`
      matching rows in the order `o` (all of them for a negative limit),
      so every matching row left out comes after every row returned. */
  function GetTodosForGet(db: Db, now: nat, f: Filters, o: Ordering, limit: int): (r: seq<TodoView>)
    requires KeyedById(db.todos)
    ensures 0 <= limit ==> |r| <= limit
    ensures |r| == if 0 <= limit < |MatchingRows(db, now, f)| then limit else |MatchingRows(db, now, f)|
    ensures forall i :: 0 <= i < |r| ==>
      r[i].row.id in db.todos && db.todos[r[i].row.id] == r[i].row &&
      Matches(db, now, f, r[i].row) && (r[i].isBlocked <==> IsBlocked(db, r[i].row.id))
    ensures forall i, j :: 0 <= i < j < |r| ==> Precedes(o, r[i].row, r[j].row)
    ensures forall t, i :: t in MatchingRows(db, now, f) && t !in Elements(RowsOfViews(r)) && 0 <= i < |r| ==>
      Precedes(o, r[i].row, t)
  {
    var rows := ListRows(db, now, f, o, limit);
    ListedRows(db, now, f, o, rows);
    var r := Views(db, rows);
    assert RowsOfViews(r) == rows;
    r
  }

  /** The rows of a listing, one by one: stored, matching, and in order. */
  lemma ListedRows(db: Db, now: nat, f: Filters, o: Ordering, rows: seq<TodoRow>)
    requires KeyedById(db.todos)
    requires Elements(rows) <= MatchingRows(db, now, f) && SortedBy(Before(o), rows)
    ensures forall i :: 0 <= i < |rows| ==>
      rows[i].id in db.todos && db.todos[rows[i].id] == rows[i] && Matches(db, now, f, rows[i])
    ensures forall i, j :: 0 <= i < j < |rows| ==> Precedes(o, rows[i], rows[j])
  {
    assert forall i :: 0 <= i < |rows| ==> rows[i] in Elements(rows);
  }

  /** `countTodosForGet`: the number of stored rows matching `f`. */
  function CountTodosForGet(db: Db, now: nat, f: Filters): (n: nat)
    requires KeyedById(db.todos)
    ensures n <= |db.todos|
  {
    var ks := set k | k in db.todos && Matches(db, now, f, db.todos[k]);
    SubsetCardInt(ks, db.todos.Keys);
    |ks|
  }

  lemma SubsetCardInt(a: set<int>, b: set<int>)
    requires a <= b
    ensures |a| <= |b|
  {
    Closure.SubsetCard(a, b);
  }

  /** The count uses the same conditions as the listing and ignores the
      limit: it is the length of the unlimited listing, and a limited
      listing holds `min(limit, count)` rows. */
  lemma CountIsUnlimitedLength(db: Db, now: nat, f: Filters, o: Ordering, limit: int)
    requires KeyedById(db.todos)
    ensures CountTodosForGet(db, now, f) == |ListRows(db, now, f, o, -1)|
    ensures 0 <= limit ==>
      |ListRows(db, now, f, o, limit)| == if limit < CountTodosForGet(db, now, f) then limit else CountTodosForGet(db, now, f)
  {
    var ks := set k | k in db.todos && Matches(db, now, f, db.todos[k]);
    var m := MatchingRows(db, now, f);
    assert m == set k | k in ks :: db.todos[k];
    RowsOfKeys(db.todos, ks);
  }

  /** Rows of distinct keys are distinct: as many rows as keys. */
  lemma {:induction false} RowsOfKeys(todos: map<int, TodoRow>, ks: set<int>)
    requires KeyedById(todos) && ks <= todos.Keys
    ensures |set k | k in ks :: todos[k]| == |ks|
    decreases ks
  {
    if ks != {} {
      Closure.NonEmpty(ks);
      var k :| k in ks;
      RowsOfKeys(todos, ks - {k});
      var rest := set j | j in ks - {k} :: todos[j];
      assert todos[k] !in rest;
      assert (set j | j in ks :: todos[j]) == rest + {todos[k]};
    }
  }

  // ---------------------------------------------------------------------------
  // Fetch by ids, ready list

  /** The stored rows of `ids`, in the order given, unknown ids skipped. */
  function RowsOf(db: Db, ids: seq<int>): (r: seq<TodoView>)
    ensures |r| <= |ids|
  {
    if ids == [] then []
    else
      var rest := RowsOf(db, ids[1..]);
      if ids[0] in db.todos then [View(db, db.todos[ids[0]])] + rest else rest
  }

  /** The ids listed, in order. */
  function IdsOf(vs: seq<TodoView>): (r: seq<int>)
    ensures |r| == |vs|
    ensures forall i :: 0 <= i < |r| ==> r[i] == vs[i].row.id
  {
    if vs == [] then [] else [vs[0].row.id] + IdsOf(vs[1..])
  }

  /** Keeps the ids that are stored, in order. */
  function KnownIds(db: Db, ids: seq<int>): (r: seq<int>)
    ensures forall x :: x in r <==> x in ids && x in db.todos
    ensures Distinct(ids) ==> Distinct(r)
  {
    if ids == [] then []
    else
      assert Distinct(ids) ==> Distinct(ids[1..]) && ids[0] !in ids[1..];
      if ids[0] in db.todos then [ids[0]] + KnownIds(db, ids[1..]) else KnownIds(db, ids[1..])
  }

  lemma {:induction false} RowsOfIds(db: Db, ids: seq<int>)
    requires KeyedById(db.todos)
    ensures IdsOf(RowsOf(db, ids)) == KnownIds(db, ids)
    ensures forall v :: v in RowsOf(db, ids) ==> v.row == db.todos[v.row.id] && (v.isBlocked <==> IsBlocked(db, v.row.id))
  {
    if ids != [] {
      RowsOfIds(db, ids[1..]);
      var rest := RowsOf(db, ids[1..]);
      if ids[0] in db.todos {
        var vs := [View(db, db.todos[ids[0]])] + rest;
        assert vs[1..] == rest;
        assert vs[0].row.id == ids[0];
      }
    }
  }

  /** `getTodosByIds`: the requested todos, each once, in the order of
      first request; unknown ids are dropped and an empty request gives an
      empty answer. */
  function GetTodosByIds(db: Db, ids: seq<int>): (r: seq<TodoView>)
    requires KeyedById(db.todos)
    ensures IdsOf(r) == KnownIds(db, Dedup(ids))
    ensures Distinct(IdsOf(r))
    ensures forall x :: x in IdsOf(r) <==> x in ids && x in db.todos
    ensures forall v :: v in r ==> v.row == db.todos[v.row.id] && (v.isBlocked <==> IsBlocked(db, v.row.id))
    ensures ids == [] ==> r == []
  {
    var unique := Dedup(ids);
    if |unique| == 0 then []
    else
      RowsOfIds(db, unique);
      RowsOf(db, unique)
  }

  /** Requested ids keep the order of their first request. */
  lemma ByIdsInRequestOrder(db: Db, ids: seq<int>, i: int, j: int)
    requires KeyedById(db.todos)
    requires 0 <= i < j < |GetTodosByIds(db, ids)|
    ensures GetTodosByIds(db, ids)[i].row.id in ids && GetTodosByIds(db, ids)[j].row.id in ids
    ensures FirstIndex(ids, GetTodosByIds(db, ids)[i].row.id) < FirstIndex(ids, GetTodosByIds(db, ids)[j].row.id)
  {
    var r := GetTodosByIds(db, ids);
    var u := Dedup(ids);
    assert IdsOf(r)[i] == r[i].row.id && IdsOf(r)[j] == r[j].row.id;
    var a, b := KnownIdsPositions(db, u, i, j);
  }

  /** Filtering keeps relative order: two positions of the kept list come
      from two positions of the input in the same order. */
  lemma {:induction false} KnownIdsPositions(db: Db, xs: seq<int>, i: int, j: int) returns (a: int, b: int)
    requires 0 <= i < j < |KnownIds(db, xs)|
    ensures 0 <= a < b < |xs| && xs[a] == KnownIds(db, xs)[i] && xs[b] == KnownIds(db, xs)[j]
  {
    var rest := KnownIds(db, xs[1..]);
    if xs[0] in db.todos {
      assert KnownIds(db, xs) == [xs[0]] + rest;
      if i == 0 {
        a := 0;
        assert KnownIds(db, xs)[j] == rest[j - 1];
        assert rest[j - 1] in rest;
        b := 1 + FirstIndex(xs[1..], rest[j - 1]);
      } else {
        var a', b' := KnownIdsPositions(db, xs[1..], i - 1, j - 1);
        a, b := a' + 1, b' + 1;
      }
    } else {
      var a', b' := KnownIdsPositions(db, xs[1..], i, j);
      a, b := a' + 1, b' + 1;
    }
  }

  /** `getReadyTodos`: the todos whose status is `todo` and which are not
      blocked (SQL gives no order, so the result is a set). */
  function GetReadyTodos(db: Db): (r: set<TodoRow>)
    requires KeyedById(db.todos)
    ensures forall t :: t in r ==> t.id in db.todos && db.todos[t.id] == t
    ensures forall k :: k in db.todos ==>
      (db.todos[k] in r <==> db.todos[k].status == Todo && !IsBlocked(db, k))
  {
    set k | k in db.todos && db.todos[k].status == Todo && !IsBlocked(db, k) :: db.todos[k]
  }

  /** The ready todos are the rows the listing filters give for status
      `todo` and not blocked, at any time. */
  lemma ReadyIsFilteredListing(db: Db, now: nat)
    requires KeyedById(db.todos)
    ensures GetReadyTodos(db) == MatchingRows(db, now, NoFilters.(statuses := [Todo], blocked := Some(false)))
  {
    var f := NoFilters.(statuses := [Todo], blocked := Some(false));
    forall t | t in MatchingRows(db, now, f) ensures t in GetReadyTodos(db) {
      assert t.status in f.statuses;
    }
  }
}
