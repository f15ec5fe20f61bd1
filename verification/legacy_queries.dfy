/** The older query module: `getTodosForGet` with the `actionableOnly`
    switch, whose rows are fetched in the scheduling order, limited, and then
    sorted again in memory with `compareTodosForScheduling`; and
    `getNextTodos`, the actionable listing. */
module LegacyTodoQueries {
  import opened Wrappers
  import opened Sorting
  import opened Schema
  import opened Scheduling
  import opened TodoQueries

  /** The options of the older `getTodosForGet`. */
  datatype LegacyOptions = LegacyOptions(
    limit: int,
    actionableOnly: bool,
    blocked: Option<bool>,
    minPriority: Option<int>,
    dueBefore: Option<string>,
    dueAfter: Option<string>,
    tagId: Option<int>)

  /** The options other than `actionableOnly` are the conditions of the
      newer query with the same meaning (no status, assignee or lease
      options exist here). */
  function AsFilters(opts: LegacyOptions): (f: Filters)
    ensures f.statuses == [] && f.assignee.None? && f.hasAssignee.None? && f.leaseExpired.None?
    ensures f.blocked == opts.blocked && f.minPriority == opts.minPriority && f.tagId == opts.tagId
    ensures f.dueBefore == opts.dueBefore && f.dueAfter == opts.dueAfter
  {
    NoFilters.(blocked := opts.blocked, minPriority := opts.minPriority,
      dueBefore := opts.dueBefore, dueAfter := opts.dueAfter, tagId := opts.tagId)
  }

  /** `actionableOnly`: status `todo` and not blocked. An `in_progress` todo
      is not actionable, although it may still be claimed. */
  predicate Actionable(db: Db, t: TodoRow) {
    t.status == Todo && !IsBlocked(db, t.id)
  }

  predicate LegacyMatches(db: Db, opts: LegacyOptions, t: TodoRow) {
    (opts.actionableOnly ==> Actionable(db, t)) && Matches(db, 0, AsFilters(opts), t)
  }

  function LegacyMatchingRows(db: Db, opts: LegacyOptions): (r: set<TodoRow>)
    requires KeyedById(db.todos)
    ensures IdsDistinct(r)
    ensures forall t :: t in r <==> t.id in db.todos && db.todos[t.id] == t && LegacyMatches(db, opts, t)
  {
    set k | k in db.todos && LegacyMatches(db, opts, db.todos[k]) :: db.todos[k]
  }

  /** The rows as the SQL query returns them: scheduling order, limited. */
  function FetchedRows(db: Db, opts: LegacyOptions): (r: seq<TodoRow>)
    requires KeyedById(db.todos)
    ensures Elements(r) <= LegacyMatchingRows(db, opts)
    ensures SortedBy(Before(Default), r)
    ensures 0 <= opts.limit ==> |r| <= opts.limit
    ensures |r| == if 0 <= opts.limit < |LegacyMatchingRows(db, opts)| then opts.limit else |LegacyMatchingRows(db, opts)|
    ensures forall t, i :: t in LegacyMatchingRows(db, opts) && t !in Elements(r) && 0 <= i < |r| ==>
      ScheduledBefore(r[i], t)
  {
    var m := LegacyMatchingRows(db, opts);
    PrecedesStrictTotal(Default, m);
    var all := SortSet(Before(Default), m);
    var r := Take(all, opts.limit);
    TakeBeforeRest(Before(Default), all, opts.limit);
    r
  }

  /** The older `getTodosForGet`: the fetched rows, sorted again with the
      comparator. The result is the first `limit` rows satisfying all the
      conditions given (all of them for a negative limit) in comparator
      order: every matching row left out comes after every row returned. */
  function LegacyListRows(db: Db, opts: LegacyOptions): (r: seq<TodoRow>)
    requires KeyedById(db.todos)
    ensures Elements(r) <= LegacyMatchingRows(db, opts)
    ensures SortedBy(CompareLess, r)
    ensures 0 <= opts.limit ==> |r| <= opts.limit
    ensures |r| == if 0 <= opts.limit < |LegacyMatchingRows(db, opts)| then opts.limit else |LegacyMatchingRows(db, opts)|
    ensures forall t, i :: t in LegacyMatchingRows(db, opts) && t !in Elements(r) && 0 <= i < |r| ==>
      CompareLess(r[i], t)
  {
    var fetched := FetchedRows(db, opts);
    ResortFetched(db, opts);
    var r := SortSet(CompareLess, Elements(fetched));
    assert r == fetched;
    FetchedCompareLess(db, opts);
    r
  }

  /** Every matching row the query leaves out compares after each fetched
      row. */
  lemma FetchedCompareLess(db: Db, opts: LegacyOptions)
    requires KeyedById(db.todos)
    ensures var r := FetchedRows(db, opts);
      forall t, i :: t in LegacyMatchingRows(db, opts) && t !in Elements(r) && 0 <= i < |r| ==> CompareLess(r[i], t)
  {
    var r := FetchedRows(db, opts);
    forall t, i | t in LegacyMatchingRows(db, opts) && t !in Elements(r) && 0 <= i < |r|
      ensures CompareLess(r[i], t)
    {
      CompareAgreesWithSchedule(r[i], t);
    }
  }

  /** Sorting the fetched rows with the comparator gives them back in the
      order they were fetched: the comparator agrees with the `ORDER BY`
      of the query on every pair of rows. */
  lemma ResortFetched(db: Db, opts: LegacyOptions)
    requires KeyedById(db.todos)
    ensures StrictTotalOn(CompareLess, Elements(FetchedRows(db, opts)))
    ensures SortSet(CompareLess, Elements(FetchedRows(db, opts))) == FetchedRows(db, opts)
  {
    var fetched := FetchedRows(db, opts);
    var s := Elements(fetched);
    CompareSortIsScheduleSort(s);
    ResortIsIdentity(Before(Default), fetched);
  }

  /** The in-memory sort changes nothing: re-sorting the fetched rows
      returns them in the order they were fetched. */
  lemma ResortKeepsFetchOrder(db: Db, opts: LegacyOptions)
    requires KeyedById(db.todos)
    ensures LegacyListRows(db, opts) == FetchedRows(db, opts)
  {
    ResortFetched(db, opts);
  }

  /** `getNextTodos(limit)`: actionable todos only. */
  function GetNextTodos(db: Db, limit: int): (r: seq<TodoRow>)
    requires KeyedById(db.todos)
    ensures forall i :: 0 <= i < |r| ==> r[i].id in db.todos && db.todos[r[i].id] == r[i]
    ensures forall i :: 0 <= i < |r| ==> r[i].status == Todo && !IsBlocked(db, r[i].id)
    ensures forall i, j :: 0 <= i < j < |r| ==> CompareLess(r[i], r[j])
    ensures 0 <= limit ==> |r| <= limit
    ensures |r| == if 0 <= limit < |GetReadyTodos(db)| then limit else |GetReadyTodos(db)|
    ensures forall t, i :: t in GetReadyTodos(db) && t !in Elements(r) && 0 <= i < |r| ==> CompareLess(r[i], t)
  {
    var opts := LegacyOptions(limit, true, None, None, None, None, None);
    var r := LegacyListRows(db, opts);
    LegacyListed(db, opts, r);
    ActionableIsReady(db, limit);
    r
  }

  /** With `actionableOnly` and no other option the matching rows are the
      ready todos. */
  lemma ActionableIsReady(db: Db, limit: int)
    requires KeyedById(db.todos)
    ensures LegacyMatchingRows(db, LegacyOptions(limit, true, None, None, None, None, None)) == GetReadyTodos(db)
  {
    var opts := LegacyOptions(limit, true, None, None, None, None, None);
    forall t | t in GetReadyTodos(db) ensures t in LegacyMatchingRows(db, opts) {
      FiltersConjunctive(db, 0, AsFilters(opts), t);
    }
  }

  /** The rows of a legacy listing, one by one: stored and matching. */
  lemma LegacyListed(db: Db, opts: LegacyOptions, rows: seq<TodoRow>)
    requires KeyedById(db.todos) && Elements(rows) <= LegacyMatchingRows(db, opts)
    ensures forall i :: 0 <= i < |rows| ==>
      rows[i].id in db.todos && db.todos[rows[i].id] == rows[i] && LegacyMatches(db, opts, rows[i])
  {
    assert forall i :: 0 <= i < |rows| ==> rows[i] in Elements(rows);
  }

  /** Rows with the same due date and priority come out by ascending id. */
  lemma NextTodosTiesById(db: Db, limit: int, i: int, j: int)
    requires KeyedById(db.todos)
    requires 0 <= i < j < |GetNextTodos(db, limit)|
    requires DueKey(GetNextTodos(db, limit)[i]) == DueKey(GetNextTodos(db, limit)[j])
    requires PriorityKey(GetNextTodos(db, limit)[i]) == PriorityKey(GetNextTodos(db, limit)[j])
    ensures GetNextTodos(db, limit)[i].id < GetNextTodos(db, limit)[j].id
  {
    CompareAgreesWithSchedule(GetNextTodos(db, limit)[i], GetNextTodos(db, limit)[j]);
  }

  /** Without a limit, the next todos are exactly the ready todos. */
  lemma UnlimitedNextIsReady(db: Db)
    requires KeyedById(db.todos)
    ensures Elements(GetNextTodos(db, -1)) == GetReadyTodos(db)
  {
    var opts := LegacyOptions(-1, true, None, None, None, None, None);
    var fetched := FetchedRows(db, opts);
    ResortKeepsFetchOrder(db, opts);
    assert Elements(fetched) == LegacyMatchingRows(db, opts);
    ActionableIsReady(db, -1);
  }
}
