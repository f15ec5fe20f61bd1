/** The orders in which todos are listed and claimed: the `ORDER BY`
    clauses built by `getOrderByClauses`, and the comparator
    `compareTodosForScheduling` of the older query module. */
module Scheduling {
  import opened Wrappers
  import opened Text
  import opened Schema
  import opened Sorting

  datatype SortKey = DueDate | Priority | CreatedAt | UpdatedAt | Id
  datatype Direction = Asc | Desc

  /** `Default` is the scheduling order (earliest due date, then highest
      priority, then lowest id); `By` sorts on one column. */
  datatype Ordering = Default | By(key: SortKey, dir: Direction)

  /** `getOrderByClauses(sortBy, sortOrder)`: without `sortBy` the direction
      is ignored; a missing direction means ascending. */
  function OrderingOf(sortBy: Option<SortKey>, sortOrder: Option<Direction>): (o: Ordering)
    ensures sortBy.None? <==> o.Default?
    ensures sortBy.Some? ==> o.key == sortBy.value
    ensures sortBy.Some? ==> (o.dir == Desc <==> sortOrder == Some(Desc))
  {
    match sortBy
    case None => Default
    case Some(k) => By(k, sortOrder.GetOr(Asc))
  }

  /** Strictly smaller on one column, ascending (null dates and priorities
      replaced by their sort defaults). */
  predicate KeyLess(k: SortKey, a: TodoRow, b: TodoRow) {
    match k
    case DueDate => LexLt(DueKey(a), DueKey(b))
    case Priority => PriorityKey(a) < PriorityKey(b)
    case CreatedAt => LexLt(a.createdAt, b.createdAt)
    case UpdatedAt => LexLt(a.updatedAt, b.updatedAt)
    case Id => a.id < b.id
  }

  predicate KeySame(k: SortKey, a: TodoRow, b: TodoRow) {
    match k
    case DueDate => DueKey(a) == DueKey(b)
    case Priority => PriorityKey(a) == PriorityKey(b)
    case CreatedAt => a.createdAt == b.createdAt
    case UpdatedAt => a.updatedAt == b.updatedAt
    case Id => a.id == b.id
  }

  /** The scheduling order of claim and of the default listing:
      `coalesce(due_date, '9999-12-31') asc, coalesce(priority, 0) desc, id asc`. */
  predicate ScheduledBefore(a: TodoRow, b: TodoRow) {
    LexLt(DueKey(a), DueKey(b)) ||
    (DueKey(a) == DueKey(b) &&
      (PriorityKey(a) > PriorityKey(b) || (PriorityKey(a) == PriorityKey(b) && a.id < b.id)))
  }

  /** `a` is listed before `b` under ordering `o`. An explicit column is
      followed by the ascending id tie-breaker, even when descending; the id
      column is the only key when sorting by id. */
  predicate Precedes(o: Ordering, a: TodoRow, b: TodoRow) {
    match o
    case Default => ScheduledBefore(a, b)
    case By(Id, dir) => if dir == Asc then a.id < b.id else b.id < a.id
    case By(k, dir) =>
      (if dir == Asc then KeyLess(k, a, b) else KeyLess(k, b, a)) ||
      (KeySame(k, a, b) && a.id < b.id)
  }

  /** The order `o` as a comparison function, for sorting. */
  function Before(o: Ordering): (TodoRow, TodoRow) -> bool {
    (a, b) => Precedes(o, a, b)
  }

  /** Rows of one table: one row per id. */
  predicate IdsDistinct(s: set<TodoRow>) {
    forall a, b :: a in s && b in s && a.id == b.id ==> a == b
  }

  lemma KeyOrder(k: SortKey, a: TodoRow, b: TodoRow, c: TodoRow)
    ensures !KeyLess(k, a, a) && KeySame(k, a, a)
    ensures KeyLess(k, a, b) || KeyLess(k, b, a) || KeySame(k, a, b)
    ensures KeySame(k, a, b) ==> !KeyLess(k, a, b)
    ensures KeySame(k, a, b) && KeySame(k, b, c) ==> KeySame(k, a, c)
    ensures KeyLess(k, a, b) && KeySame(k, b, c) ==> KeyLess(k, a, c)
    ensures KeySame(k, a, b) && KeyLess(k, b, c) ==> KeyLess(k, a, c)
    ensures KeyLess(k, a, b) && KeyLess(k, b, c) ==> KeyLess(k, a, c)
    ensures KeyLess(k, a, b) ==> !KeyLess(k, b, a)
  {
    match k
    case DueDate => LexFacts(DueKey(a), DueKey(b), DueKey(c));
    case CreatedAt => LexFacts(a.createdAt, b.createdAt, c.createdAt);
    case UpdatedAt => LexFacts(a.updatedAt, b.updatedAt, c.updatedAt);
    case Priority =>
    case Id =>
  }

  lemma LexFacts(x: string, y: string, z: string)
    ensures !LexLt(x, x)
    ensures x == y || LexLt(x, y) || LexLt(y, x)
    ensures LexLt(x, y) ==> !LexLt(y, x)
    ensures LexLt(x, y) && LexLt(y, z) ==> LexLt(x, z)
  {
    LexIrreflexive(x);
    LexTotal(x, y);
    LexAsymmetric(x, y);
    if LexLt(x, y) && LexLt(y, z) {
      LexTransitive(x, y, z);
    }
  }

  /** Every ordering is a strict total order on the rows of a table, so the
      listing it produces is unique. */
  lemma PrecedesStrictTotal(o: Ordering, s: set<TodoRow>)
    requires IdsDistinct(s)
    ensures StrictTotalOn(Before(o), s)
  {
    var lt := Before(o);
    forall a, b, c | a in s && b in s && c in s
      ensures !lt(a, a)
      ensures a != b ==> lt(a, b) || lt(b, a)
      ensures lt(a, b) && lt(b, c) ==> lt(a, c)
    {
      match o
      case Default =>
        KeyOrder(DueDate, a, b, c);
        KeyOrder(Priority, a, b, c);
      case By(k, dir) =>
        KeyOrder(k, a, b, c);
        KeyOrder(k, c, b, a);
    }
  }

  // ---------------------------------------------------------------------------
  // compareTodosForScheduling

  /** The comparator, returning a negative number, zero or a positive number
      as `Array.prototype.sort` expects; string comparison is binary. It is
      negative exactly when `a` comes first in the `ORDER BY` of the
      scheduling queries. */
  function CompareForScheduling(a: TodoRow, b: TodoRow): (r: int)
    ensures r == 0 <==> DueKey(a) == DueKey(b) && PriorityKey(a) == PriorityKey(b) && a.id == b.id
    ensures r < 0 <==> ScheduledBefore(a, b)
  {
    var c := LexCompare(DueKey(a), DueKey(b));
    if DueKey(a) != DueKey(b) then c
    else if PriorityKey(a) != PriorityKey(b) then PriorityKey(b) - PriorityKey(a)
    else a.id - b.id
  }

  /** Zero only for the same id: on the rows of one table the comparator
      never reports a tie between two different todos. */
  lemma CompareZeroOnlyForSameRow(s: set<TodoRow>, a: TodoRow, b: TodoRow)
    requires IdsDistinct(s) && a in s && b in s
    ensures CompareForScheduling(a, b) == 0 <==> a == b
  {
  }

  /** Negative exactly when `a` is scheduled first, for callers that reason
      about a pair of rows by name. */
  lemma CompareAgreesWithSchedule(a: TodoRow, b: TodoRow)
    ensures CompareForScheduling(a, b) < 0 <==> ScheduledBefore(a, b)
  {
  }

  lemma CompareAntisymmetric(a: TodoRow, b: TodoRow)
    ensures CompareForScheduling(a, b) < 0 <==> CompareForScheduling(b, a) > 0
    ensures CompareForScheduling(a, b) == 0 <==> CompareForScheduling(b, a) == 0
  {
    LexFacts(DueKey(a), DueKey(b), DueKey(a));
  }

  lemma CompareTransitive(a: TodoRow, b: TodoRow, c: TodoRow)
    requires CompareForScheduling(a, b) < 0 && CompareForScheduling(b, c) < 0
    ensures CompareForScheduling(a, c) < 0
  {
    CompareAgreesWithSchedule(a, b);
    CompareAgreesWithSchedule(b, c);
    CompareAgreesWithSchedule(a, c);
    KeyOrder(DueDate, a, b, c);
    KeyOrder(Priority, a, b, c);
  }

  /** The comparator read as "strictly before". */
  predicate CompareLess(a: TodoRow, b: TodoRow) {
    CompareForScheduling(a, b) < 0
  }

  lemma CompareAgreesOn(s: set<TodoRow>)
    ensures AgreeOn(Before(Default), CompareLess, s)
  {
    forall a, b | a in s && b in s
      ensures Before(Default)(a, b) == CompareLess(a, b)
    {
      CompareAgreesWithSchedule(a, b);
    }
  }

  /** Sorting with the comparator is sorting in the scheduling order. */
  lemma CompareSortIsScheduleSort(s: set<TodoRow>)
    requires IdsDistinct(s)
    ensures StrictTotalOn(Before(Default), s) && StrictTotalOn(CompareLess, s)
    ensures SortSet(CompareLess, s) == SortSet(Before(Default), s)
  {
    PrecedesStrictTotal(Default, s);
    CompareAgreesOn(s);
    AgreeSortSet(Before(Default), CompareLess, s);
  }
}
