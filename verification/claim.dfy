/** `claimTodo`: one atomic transition that picks an eligible todo, sets it
    in progress and leases it to an assignee. `now` stands for
    `CURRENT_TIMESTAMP`, in seconds. */
module Claim {
  import opened Wrappers
  import opened Sorting
  import opened Schema
  import opened Scheduling
  import opened TodoQueries

  /** The conditions of `claimableConditions` that do not depend on the
      arguments: open, not blocked, and either unassigned or holding an
      expired lease. An assigned todo without a lease never qualifies
      (`null <= now` is not true in SQL). */
  predicate Eligible(db: Db, now: nat, t: TodoRow) {
    (t.status == Todo || t.status == InProgress) &&
    !IsBlocked(db, t.id) &&
    (t.assignee.None? || LeaseExpired(t, now))
  }

  /** Eligible, and inside the requested id and tag subtree when given. */
  predicate Claimable(db: Db, now: nat, id: Option<int>, tagId: Option<int>, t: TodoRow) {
    Eligible(db, now, t) &&
    (id.None? || t.id == id.value) &&
    (tagId.None? || InSubtree(db.tags, t.tagId, tagId.value))
  }

  /** The stored rows that could be claimed. */
  function Pool(db: Db, now: nat, tagId: Option<int>): (r: set<TodoRow>)
    requires KeyedById(db.todos)
    ensures IdsDistinct(r)
    ensures forall t :: t in r <==> t.id in db.todos && db.todos[t.id] == t && Claimable(db, now, None, tagId, t)
  {
    set k | k in db.todos && Claimable(db, now, None, tagId, db.todos[k]) :: db.todos[k]
  }

  /** The row after it has been claimed: `status = 'in_progress'`, the
      assignee, and a lease ending `leaseMinutes` minutes from now. */
  function Leased(t: TodoRow, assignee: string, now: nat, leaseMinutes: nat): (u: TodoRow)
    ensures u.id == t.id && u.status == InProgress && u.assignee == Some(assignee)
    ensures u.lease == Some(now + 60 * leaseMinutes)
    ensures u.(status := t.status, assignee := t.assignee, lease := t.lease) == t
  {
    t.(status := InProgress, assignee := Some(assignee), lease := Some(now + 60 * leaseMinutes))
  }

  /** The todo a claim takes, if any: the requested one when it is
      claimable, otherwise the first claimable todo in scheduling order
      (`order by ... limit 1`). */
  function Target(db: Db, now: nat, id: Option<int>, tagId: Option<int>): (r: Option<int>)
    requires KeyedById(db.todos)
    ensures r.Some? ==> r.value in db.todos && Claimable(db, now, id, tagId, db.todos[r.value])
    ensures id.Some? ==> (r.Some? <==> id.value in db.todos && Claimable(db, now, id, tagId, db.todos[id.value]))
    ensures id.None? ==> (r.Some? <==> Pool(db, now, tagId) != {})
    ensures id.None? && r.Some? ==> forall u :: u in Pool(db, now, tagId) && u.id != r.value ==>
      ScheduledBefore(db.todos[r.value], u)
  {
    if id.Some? then
      if id.value in db.todos && Claimable(db, now, id, tagId, db.todos[id.value]) then id else None
    else
      var pool := Pool(db, now, tagId);
      PrecedesStrictTotal(Default, pool);
      var sorted := SortSet(Before(Default), pool);
      if |sorted| == 0 then None
      else
        var first := sorted[0];
        assert first in Elements(sorted);
        forall u | u in pool && u.id != first.id ensures ScheduledBefore(first, u) {
          var j :| 0 <= j < |sorted| && sorted[j] == u;
          assert j != 0;
        }
        Some(first.id)
  }

  /** `claimTodo`: the new store and the claimed todo as re-read after the
      update, or `None` with the store untouched. */
  function ClaimTodo(db: Db, now: nat, assignee: string, leaseMinutes: nat, id: Option<int>, tagId: Option<int>): (r: (Db, Option<TodoView>))
    requires KeyedById(db.todos)
    ensures r.1.None? <==> Target(db, now, id, tagId).None?
    ensures r.1.None? ==> r.0 == db
    ensures r.1.Some? ==>
      var k := Target(db, now, id, tagId).value;
      r.0 == db.(todos := db.todos[k := Leased(db.todos[k], assignee, now, leaseMinutes)]) &&
      r.1.value.row == Leased(db.todos[k], assignee, now, leaseMinutes) &&
      (r.1.value.isBlocked <==> IsBlocked(r.0, k))
  {
    match Target(db, now, id, tagId)
    case None => (db, None)
    case Some(k) =>
      var db' := db.(todos := db.todos[k := Leased(db.todos[k], assignee, now, leaseMinutes)]);
      (db', GetTodoById(db', k))
  }

  // ---------------------------------------------------------------------------
  // Properties

  /** Who claims does not matter: the same todo is taken for every assignee. */
  lemma TargetIgnoresAssignee(db: Db, now: nat, a: string, b: string, leaseMinutes: nat, id: Option<int>, tagId: Option<int>)
    requires KeyedById(db.todos)
    ensures ClaimTodo(db, now, a, leaseMinutes, id, tagId).1.None? <==> ClaimTodo(db, now, b, leaseMinutes, id, tagId).1.None?
    ensures ClaimTodo(db, now, a, leaseMinutes, id, tagId).1.Some? ==>
      ClaimTodo(db, now, a, leaseMinutes, id, tagId).1.value.row.id == ClaimTodo(db, now, b, leaseMinutes, id, tagId).1.value.row.id
  {
  }

  /** An assigned todo without a lease can never be claimed. */
  lemma AssignedWithoutLeaseNeverEligible(db: Db, now: nat, t: TodoRow)
    requires t.assignee.Some? && t.lease.None?
    ensures !Eligible(db, now, t)
  {
  }

  /** A leased todo is taken by nobody else before its lease ends, and may
      be taken again once it has ended. */
  lemma LeaseGuardsClaim(db: Db, now: nat, id: int, tagId: Option<int>)
    requires KeyedById(db.todos) && id in db.todos
    requires db.todos[id].assignee.Some? && db.todos[id].lease.Some?
    ensures now < db.todos[id].lease.value ==> Target(db, now, Some(id), tagId).None?
    ensures (db.todos[id].lease.value <= now && db.todos[id].status == InProgress && !IsBlocked(db, id) &&
      (tagId.None? || InSubtree(db.tags, db.todos[id].tagId, tagId.value))) ==>
      Target(db, now, Some(id), tagId) == Some(id)
  {
  }

  /** Right after a claim with a positive lease the todo is no longer
      claimable until the lease runs out. */
  lemma ClaimedIsNotReclaimable(db: Db, now: nat, later: nat, assignee: string, leaseMinutes: nat, id: Option<int>, tagId: Option<int>)
    requires KeyedById(db.todos)
    requires ClaimTodo(db, now, assignee, leaseMinutes, id, tagId).1.Some?
    requires later < now + 60 * leaseMinutes
    ensures
      var (db', v) := ClaimTodo(db, now, assignee, leaseMinutes, id, tagId);
      !Eligible(db', later, db'.todos[v.value.row.id])
  {
  }

  /** A claim without an id takes a todo exactly when one is claimable. */
  lemma ClaimSucceedsIffClaimable(db: Db, now: nat, assignee: string, leaseMinutes: nat, tagId: Option<int>)
    requires KeyedById(db.todos)
    ensures ClaimTodo(db, now, assignee, leaseMinutes, None, tagId).1.Some? <==>
      exists k :: k in db.todos && Claimable(db, now, None, tagId, db.todos[k])
  {
    var pool := Pool(db, now, tagId);
    if exists k :: k in db.todos && Claimable(db, now, None, tagId, db.todos[k]) {
      var k :| k in db.todos && Claimable(db, now, None, tagId, db.todos[k]);
      assert db.todos[k] in pool;
    }
    if pool != {} {
      var t := Target(db, now, None, tagId).value;
      assert t in db.todos && Claimable(db, now, None, tagId, db.todos[t]);
    }
  }

  /** A claim without an id takes the first claimable todo: every other
      claimable todo is scheduled after it. */
  lemma ClaimTakesFirstInSchedule(db: Db, now: nat, assignee: string, leaseMinutes: nat, tagId: Option<int>, k: int)
    requires KeyedById(db.todos)
    requires ClaimTodo(db, now, assignee, leaseMinutes, None, tagId).1.Some?
    requires k in db.todos && Claimable(db, now, None, tagId, db.todos[k])
    ensures
      var c := ClaimTodo(db, now, assignee, leaseMinutes, None, tagId).1.value.row.id;
      c in db.todos && (k == c || ScheduledBefore(db.todos[c], db.todos[k]))
  {
    assert db.todos[k] in Pool(db, now, tagId);
  }

  /** A claim writes one row and leaves every other row, the tags and the
      dependencies as they were. */
  lemma ClaimWritesOneRow(db: Db, now: nat, assignee: string, leaseMinutes: nat, id: Option<int>, tagId: Option<int>, k: int)
    requires KeyedById(db.todos)
    requires k in db.todos
    requires ClaimTodo(db, now, assignee, leaseMinutes, id, tagId).1.None? ||
      k != ClaimTodo(db, now, assignee, leaseMinutes, id, tagId).1.value.row.id
    ensures
      var db' := ClaimTodo(db, now, assignee, leaseMinutes, id, tagId).0;
      db'.todos.Keys == db.todos.Keys && db'.todos[k] == db.todos[k] && db'.tags == db.tags && db'.edges == db.edges
  {
  }

  /** A claim keeps every constraint of the store. */
  lemma ClaimKeepsValid(db: Db, now: nat, assignee: string, leaseMinutes: nat, id: Option<int>, tagId: Option<int>)
    requires Valid(db)
    ensures Valid(ClaimTodo(db, now, assignee, leaseMinutes, id, tagId).0)
  {
  }
}
