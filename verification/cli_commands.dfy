/** The decision logic of the `todo claim`, `todo update` and `todo get`
    commands: which option errors come first, what each command asks of
    the store, and which warnings `get` prints. The JSON5 text the
    commands print is left out: a command's result is the data it would
    print. */
module CliCommands {
  import opened Wrappers
  import opened Text
  import opened Numbers
  import opened Lists
  import opened Sorting
  import opened Schema
  import opened Scheduling
  import opened Dependencies
  import opened Tags
  import opened TodoQueries
  import opened TodoMutations
  import opened Claim
  import opened CliParsers

  /** A number option that JavaScript treats as true: given and not 0. */
  predicate NumberGiven(v: Option<real>) {
    v.Some? && v.value != 0.0
  }

  /** Each number parsed as a positive integer, in order; the first that
      is not one fails the whole list. */
  function ParseAll(xs: seq<real>, optionName: string): (r: Result<seq<int>>)
    ensures r.Ok? <==> forall i :: 0 <= i < |xs| ==> IsInteger(xs[i]) && xs[i] > 0.0
    ensures r.Ok? ==> |r.value| == |xs| && forall i :: 0 <= i < |xs| ==> r.value[i] > 0 && r.value[i] as real == xs[i]
    ensures r.Err? ==> r.message == "Invalid " + optionName + ". Use a positive integer"
  {
    if xs == [] then Ok([])
    else
      var head :- ParsePositiveInteger(xs[0], optionName);
      var tail :- ParseAll(xs[1..], optionName);
      assert forall i :: 1 <= i < |xs| ==> xs[1..][i - 1] == xs[i];
      Ok([head] + tail)
  }

  /** Parsing integers that are already positive gives them back. */
  lemma {:induction false} ParseAllOfInts(ns: seq<int>, optionName: string)
    requires forall i :: 0 <= i < |ns| ==> ns[i] > 0
    ensures ParseAll(seq(|ns|, i requires 0 <= i < |ns| => ns[i] as real), optionName) == Ok(ns)
  {
    var xs := seq(|ns|, i requires 0 <= i < |ns| => ns[i] as real);
    if ns != [] {
      IntegerOfInt(ns[0]);
      ParseAllOfInts(ns[1..], optionName);
      assert xs[1..] == seq(|ns[1..]|, i requires 0 <= i < |ns[1..]| => ns[1..][i] as real);
      assert ns == [ns[0]] + ns[1..];
    }
  }

  // ---------------------------------------------------------------------------
  // todo claim

  const AssigneeError := "Invalid --assignee. Provide non-empty text"

  function NotClaimableError(id: int): string {
    "Todo " + IntToString(id) + " is not claimable"
  }

  /** The options of `runClaimCommand`. */
  datatype ClaimValues = ClaimValues(assignee: Option<string>, leaseMinutes: real, id: Option<real>)

  /** `runClaimCommand`: the assignee must be non-blank after trimming, the
      lease length and the id (when given) positive integers, all checked
      before the store is touched. A claim of a given id that takes nothing
      is an error; a claim of any todo that takes nothing prints `null`,
      here `Ok(None)`. */
  function RunClaimCommand(db: Db, now: nat, values: ClaimValues): (r: (Db, Result<Option<TodoView>>))
    requires KeyedById(db.todos)
    ensures values.assignee.None? || Trim(values.assignee.value) == [] ==> r == (db, Err(AssigneeError))
    ensures values.assignee.Some? && Trim(values.assignee.value) != [] && ParsePositiveInteger(values.leaseMinutes, "--lease-minutes").Err? ==>
      r == (db, Err(ParsePositiveInteger(values.leaseMinutes, "--lease-minutes").message))
    ensures r.1.Err? ==> r.0 == db
    ensures r.1.Ok? ==>
      values.assignee.Some? && Trim(values.assignee.value) != [] &&
      IsInteger(values.leaseMinutes) && values.leaseMinutes > 0.0 &&
      (values.id.Some? ==> IsInteger(values.id.value) && values.id.value > 0.0)
    ensures r.1.Ok? && r.1.value.Some? ==>
      var t := r.1.value.value.row;
      t.status == InProgress && t.assignee == Some(Trim(values.assignee.value)) &&
      t.lease == Some(now + 60 * values.leaseMinutes.Floor) &&
      t.id in db.todos && Claimable(db, now, None, None, db.todos[t.id]) &&
      (values.id.Some? ==> t.id as real == values.id.value)
    ensures r.1.Ok? && r.1.value.None? ==> values.id.None? && r.0 == db && Pool(db, now, None) == {}
    ensures (r.1.Err? && values.id.Some? && IsInteger(values.id.value) && values.id.value > 0.0 &&
             values.assignee.Some? && Trim(values.assignee.value) != [] &&
             IsInteger(values.leaseMinutes) && values.leaseMinutes > 0.0) ==>
      r.1.message == NotClaimableError(values.id.value.Floor)
  {
    if values.assignee.None? then (db, Err(AssigneeError))
    else
      var assignee := Trim(values.assignee.value);
      if assignee == [] then (db, Err(AssigneeError))
      else ClaimFor(db, now, assignee, values.leaseMinutes, values.id)
  }

  /** The rest of `runClaimCommand` once the assignee is known to be
      non-blank: the number options, then the claim. */
  function ClaimFor(db: Db, now: nat, assignee: string, leaseMinutes: real, id: Option<real>): (r: (Db, Result<Option<TodoView>>))
    requires KeyedById(db.todos)
    ensures ParsePositiveInteger(leaseMinutes, "--lease-minutes").Err? ==>
      r == (db, Err(ParsePositiveInteger(leaseMinutes, "--lease-minutes").message))
    ensures r.1.Err? ==> r.0 == db
    ensures r.1.Ok? ==>
      IsInteger(leaseMinutes) && leaseMinutes > 0.0 && (id.Some? ==> IsInteger(id.value) && id.value > 0.0)
    ensures r.1.Ok? && r.1.value.Some? ==>
      var t := r.1.value.value.row;
      t.status == InProgress && t.assignee == Some(assignee) &&
      t.lease == Some(now + 60 * leaseMinutes.Floor) &&
      t.id in db.todos && Claimable(db, now, None, None, db.todos[t.id]) &&
      (id.Some? ==> t.id as real == id.value)
    ensures r.1.Ok? && r.1.value.None? ==> id.None? && r.0 == db && Pool(db, now, None) == {}
    ensures (r.1.Err? && id.Some? && IsInteger(id.value) && id.value > 0.0 &&
             IsInteger(leaseMinutes) && leaseMinutes > 0.0) ==>
      r.1.message == NotClaimableError(id.value.Floor)
  {
    match ParsePositiveInteger(leaseMinutes, "--lease-minutes")
    case Err(m) => (db, Err(m))
    case Ok(minutes) =>
      var parsed := if id.Some? then Some(ParsePositiveInteger(id.value, "--id")) else None;
      if parsed.Some? && parsed.value.Err? then (db, Err(parsed.value.message))
      else
        var wanted := if parsed.Some? then Some(parsed.value.value) else None;
        var (after, claimed) := ClaimTodo(db, now, assignee, minutes, wanted, None);
        if claimed.None? then
          if wanted.Some? then (db, Err(NotClaimableError(wanted.value))) else (db, Ok(None))
        else (after, Ok(claimed))
  }

  /** Surrounding space in the assignee changes nothing: the store sees
      the trimmed name. */
  lemma ClaimTrimsAssignee(db: Db, now: nat, values: ClaimValues)
    requires KeyedById(db.todos) && values.assignee.Some?
    ensures RunClaimCommand(db, now, values) == RunClaimCommand(db, now, values.(assignee := Some(Trim(values.assignee.value))))
  {
    TrimIdempotent(values.assignee.value);
  }

  /** With an id, the command succeeds exactly when that todo is claimable,
      and then takes it. */
  lemma ClaimByIdSucceedsIffClaimable(db: Db, now: nat, assignee: string, leaseMinutes: int, id: int)
    requires KeyedById(db.todos) && Trim(assignee) != [] && leaseMinutes > 0 && id > 0
    ensures var r := RunClaimCommand(db, now, ClaimValues(Some(assignee), leaseMinutes as real, Some(id as real)));
      (r.1.Ok? <==> id in db.todos && Claimable(db, now, Some(id), None, db.todos[id])) &&
      (r.1.Err? ==> r == (db, Err(NotClaimableError(id))))
  {
    IntegerOfInt(leaseMinutes);
    IntegerOfInt(id);
  }

  // ---------------------------------------------------------------------------
  // todo update

  const BothTagsError := "Use either --tag or --tag-id, not both"
  const DescriptionError := "Invalid --description. Provide non-empty text"
  const NoUpdatesError := "No updates provided"

  function TagNotFoundError(id: int): string {
    "Tag " + IntToString(id) + " not found"
  }

  function TagPathNotFoundError(path: string): string {
    "Tag path not found: " + path
  }

  function TodoNotFoundError(id: int): string {
    "Todo " + IntToString(id) + " not found"
  }

  /** The options of `runUpdateCommand`. */
  datatype UpdateValues = UpdateValues(
    id: real,
    description: Option<string>,
    status: Option<Status>,
    predecessors: Option<seq<real>>,
    clearPredecessors: bool,
    tag: Option<string>,
    tagId: Option<real>,
    workNotes: Option<string>,
    priority: Option<real>,
    dueDate: Option<string>)

  /** What the store reads before an update: the tag id named by `--tag-id`
      (which must exist) or by `--tag` (which must resolve; it wins over
      `--tag-id`). */
  function ResolveUpdateTag(db: Db, values: UpdateValues): (r: Result<Option<int>>)
    requires UniqueTagNames(db.tags) && TagsKeyedById(db.tags)
    ensures values.tagId.None? && values.tag.None? ==> r == Ok(None)
    ensures values.tagId.Some? && ParsePositiveInteger(values.tagId.value, "--tag-id").Err? ==>
      r == Err(ParsePositiveInteger(values.tagId.value, "--tag-id").message)
    ensures (values.tagId.Some? && ParsePositiveInteger(values.tagId.value, "--tag-id").Ok? &&
             ParsePositiveInteger(values.tagId.value, "--tag-id").value !in db.tags) ==>
      r == Err(TagNotFoundError(ParsePositiveInteger(values.tagId.value, "--tag-id").value))
    ensures r.Ok? && values.tag.Some? ==>
      ResolveTagPath(db, values.tag.value).Ok? && ResolveTagPath(db, values.tag.value).value.Some? &&
      r.value == Some(ResolveTagPath(db, values.tag.value).value.value.id)
    ensures r.Ok? && values.tag.None? && values.tagId.Some? ==>
      r.value.Some? && r.value.value in db.tags && r.value.value as real == values.tagId.value
    ensures r.Ok? ==> r.value.Some? ==> r.value.value in db.tags
    ensures values.tagId.None? && values.tag.Some? && ResolveTagPath(db, values.tag.value) == Ok(None) ==>
      r == Err(TagPathNotFoundError(values.tag.value))
  {
    var byId :- if values.tagId.None? then Ok(None)
      else
        var n :- ParsePositiveInteger(values.tagId.value, "--tag-id");
        if n !in db.tags then Err(TagNotFoundError(n)) else Ok(Some(n));
    if values.tag.None? then Ok(byId)
    else
      var found :- ResolveTagPath(db, values.tag.value);
      if found.None? then Err(TagPathNotFoundError(values.tag.value)) else Ok(Some(found.value.id))
  }

  /** `--priority`, when given, parsed as a priority. */
  function UpdatePriority(p: Option<real>): (r: Result<Option<int>>)
    ensures p.None? ==> r == Ok(None)
    ensures p.Some? ==> (r.Ok? <==> IsInteger(p.value) && 1.0 <= p.value <= 5.0)
    ensures p.Some? && r.Err? ==> r == Err(ParsePriority(p.value, "--priority").message)
    ensures r.Ok? && p.Some? ==> r.value.Some? && ValidPriority(r.value) && r.value.value as real == p.value
  {
    if p.None? then Ok(None)
    else
      var n :- ParsePriority(p.value, "--priority");
      Ok(Some(n))
  }

  /** The predecessor list of an update: empty with `--clear-predecessors`
      whatever `--predecessors` says, else `--predecessors` parsed when
      given. */
  function UpdatePredecessors(clear: bool, ps: Option<seq<real>>): (r: Result<Option<seq<int>>>)
    ensures clear ==> r == Ok(Some([]))
    ensures !clear && ps.None? ==> r == Ok(None)
    ensures !clear && ps.Some? ==> (r.Ok? <==> ParseAll(ps.value, "--predecessors").Ok?)
    ensures !clear && ps.Some? && r.Ok? ==> r.value == Some(ParseAll(ps.value, "--predecessors").value)
    ensures r.Err? ==>
      !clear && ps.Some? && ParseAll(ps.value, "--predecessors").Err? &&
      r.message == ParseAll(ps.value, "--predecessors").message
  {
    if clear then Ok(Some([]))
    else if ps.None? then Ok(None)
    else
      match ParseAll(ps.value, "--predecessors")
      case Err(m) => Err(m)
      case Ok(ids) => Ok(Some(ids))
  }

  /** The change set of an update: exactly the supplied fields, with the
      description and the work notes trimmed. */
  function ChangesOf(values: UpdateValues, tagId: Option<int>, priority: Option<int>): (c: TodoChanges)
    ensures c.description.Some? <==> values.description.Some?
    ensures c.description.Some? ==> c.description.value == Trim(values.description.value)
    ensures c.status == values.status
    ensures c.workNotes.Some? <==> values.workNotes.Some?
    ensures c.workNotes.Some? ==> c.workNotes.value == Some(Trim(values.workNotes.value))
    ensures c.priority.Some? <==> priority.Some?
    ensures c.priority.Some? ==> c.priority.value == priority
    ensures c.dueDate.Some? <==> values.dueDate.Some?
    ensures c.dueDate.Some? ==> c.dueDate.value == values.dueDate
    ensures c.tagId.Some? <==> tagId.Some?
    ensures c.tagId.Some? ==> c.tagId.value == tagId
    ensures c == NoChanges <==>
      values.description.None? && values.status.None? && values.workNotes.None? &&
      values.dueDate.None? && tagId.None? && priority.None?
  {
    TodoChanges(
      description := if values.description.Some? then Some(Trim(values.description.value)) else None,
      status := values.status,
      tagId := if tagId.Some? then Some(tagId) else None,
      workNotes := if values.workNotes.Some? then Some(Some(Trim(values.workNotes.value))) else None,
      priority := if priority.Some? then Some(priority) else None,
      dueDate := if values.dueDate.Some? then Some(values.dueDate) else None)
  }

  /** The request `runUpdateCommand` sends to `updateTodoWithRelations`:
      the todo id, the change set and the predecessor list. */
  datatype UpdateRequest = UpdateRequest(id: int, changes: TodoChanges, predecessors: Option<seq<int>>)

  /** The checks of `runUpdateCommand`, in its order, and the request they
      build: a bad `--id`, then both tag options, then the tag lookups,
      `--priority`, `--predecessors`, a blank description, and finally an
      update that names nothing. Blank work notes are kept as empty text. */
  function BuildUpdate(db: Db, values: UpdateValues): (r: Result<UpdateRequest>)
    requires UniqueTagNames(db.tags) && TagsKeyedById(db.tags)
    ensures ParsePositiveInteger(values.id, "--id").Err? ==> r == Err(ParsePositiveInteger(values.id, "--id").message)
    ensures ParsePositiveInteger(values.id, "--id").Ok? && Truthy(values.tag) && NumberGiven(values.tagId) ==> r == Err(BothTagsError)
    ensures r.Ok? <==>
      ParsePositiveInteger(values.id, "--id").Ok? && !(Truthy(values.tag) && NumberGiven(values.tagId)) &&
      ResolveUpdateTag(db, values).Ok? && UpdatePriority(values.priority).Ok? &&
      UpdatePredecessors(values.clearPredecessors, values.predecessors).Ok? &&
      (values.description.Some? ==> Trim(values.description.value) != []) &&
      (ChangesOf(values, ResolveUpdateTag(db, values).value, UpdatePriority(values.priority).value) != NoChanges ||
       UpdatePredecessors(values.clearPredecessors, values.predecessors).value.Some?)
    ensures r.Ok? ==>
      r.value.id == ParsePositiveInteger(values.id, "--id").value &&
      r.value.changes == ChangesOf(values, ResolveUpdateTag(db, values).value, UpdatePriority(values.priority).value) &&
      r.value.predecessors == UpdatePredecessors(values.clearPredecessors, values.predecessors).value
  {
    var id :- ParsePositiveInteger(values.id, "--id");
    if Truthy(values.tag) && NumberGiven(values.tagId) then Err(BothTagsError)
    else
      var tagId :- ResolveUpdateTag(db, values);
      var priority :- UpdatePriority(values.priority);
      var predecessors :- UpdatePredecessors(values.clearPredecessors, values.predecessors);
      if values.description.Some? && Trim(values.description.value) == [] then Err(DescriptionError)
      else
        var changes := ChangesOf(values, tagId, priority);
        if changes == NoChanges && predecessors.None? then Err(NoUpdatesError)
        else Ok(UpdateRequest(id, changes, predecessors))
  }

  /** The ordering of the late errors: once the options parse and the tags
      resolve, a blank description is refused, and then an update naming
      nothing. */
  lemma BuildUpdateLateErrors(db: Db, values: UpdateValues)
    requires UniqueTagNames(db.tags) && TagsKeyedById(db.tags)
    requires ParsePositiveInteger(values.id, "--id").Ok? && !(Truthy(values.tag) && NumberGiven(values.tagId))
    requires ResolveUpdateTag(db, values).Ok? && UpdatePriority(values.priority).Ok?
    requires UpdatePredecessors(values.clearPredecessors, values.predecessors).Ok?
    ensures values.description.Some? && Trim(values.description.value) == [] ==> BuildUpdate(db, values) == Err(DescriptionError)
    ensures (values.description.None? && values.status.None? && values.workNotes.None? && values.dueDate.None? &&
             values.priority.None? && values.tag.None? && values.tagId.None? &&
             !values.clearPredecessors && values.predecessors.None?) ==> BuildUpdate(db, values) == Err(NoUpdatesError)
  {
  }

  /** `runUpdateCommand`: the checks and reads above, then one
      `updateTodoWithRelations`; an unknown todo is an error. */
  function RunUpdateCommand(db: Db, values: UpdateValues): (r: (Db, Result<TodoView>))
    requires KeyedById(db.todos) && UniqueTagNames(db.tags) && TagsKeyedById(db.tags)
    ensures BuildUpdate(db, values).Err? ==> r == (db, Err(BuildUpdate(db, values).message))
    ensures BuildUpdate(db, values).Ok? && BuildUpdate(db, values).value.id !in db.todos ==>
      r == (db, Err(TodoNotFoundError(BuildUpdate(db, values).value.id)))
    ensures r.1.Ok? ==>
      BuildUpdate(db, values).Ok? &&
      var q := BuildUpdate(db, values).value;
      q.id in db.todos && r.1.value.row == Apply(db.todos[q.id], q.changes) &&
      q.id in r.0.todos && r.1.value.row == r.0.todos[q.id] &&
      (r.1.value.isBlocked <==> IsBlocked(r.0, q.id)) &&
      (q.predecessors.Some? ==> Preds(r.0.edges, q.id) == Elements(q.predecessors.value)) &&
      (q.predecessors.None? ==> r.0.edges == db.edges)
  {
    match BuildUpdate(db, values)
    case Err(m) => (db, Err(m))
    case Ok(q) =>
      var (after, updated) := UpdateTodoWithRelations(db, q.id, q.changes, q.predecessors);
      match updated
      case Err(m) => (after, Err(m))
      case Ok(None) => (after, Err(TodoNotFoundError(q.id)))
      case Ok(Some(v)) => (after, Ok(v))
  }

  /** An update that names nothing to change is refused before the store
      is read for the todo. */
  lemma NoUpdatesProvided(db: Db, id: int)
    requires KeyedById(db.todos) && UniqueTagNames(db.tags) && TagsKeyedById(db.tags) && id > 0
    ensures RunUpdateCommand(db, UpdateValues(id as real, None, None, None, false, None, None, None, None, None)) ==
      (db, Err(NoUpdatesError))
  {
    IntegerOfInt(id);
  }

  /** `--clear-predecessors` makes `--predecessors` irrelevant, even one
      that would not parse. */
  lemma ClearWinsOverPredecessors(db: Db, values: UpdateValues, other: Option<seq<real>>)
    requires UniqueTagNames(db.tags) && TagsKeyedById(db.tags) && values.clearPredecessors
    ensures BuildUpdate(db, values) == BuildUpdate(db, values.(predecessors := other))
  {
    var w := values.(predecessors := other);
    assert ResolveUpdateTag(db, values) == ResolveUpdateTag(db, w);
    assert UpdatePredecessors(values.clearPredecessors, values.predecessors) == UpdatePredecessors(w.clearPredecessors, w.predecessors);
    if ResolveUpdateTag(db, values).Ok? && UpdatePriority(values.priority).Ok? {
      var t := ResolveUpdateTag(db, values).value;
      var p := UpdatePriority(values.priority).value;
      assert ChangesOf(values, t, p) == ChangesOf(w, t, p);
    }
  }

  /** A successful update with `--clear-predecessors` leaves the todo with
      no predecessors, so it is not blocked. */
  lemma ClearUnblocks(db: Db, values: UpdateValues)
    requires KeyedById(db.todos) && UniqueTagNames(db.tags) && TagsKeyedById(db.tags)
    requires values.clearPredecessors && RunUpdateCommand(db, values).1.Ok?
    ensures !RunUpdateCommand(db, values).1.value.isBlocked
  {
    var q := BuildUpdate(db, values).value;
    var after := RunUpdateCommand(db, values).0;
    assert Preds(after.edges, q.id) == {};
    BlockedIffIncompletePredecessor(after, q.id);
  }

  // ---------------------------------------------------------------------------
  // todo get

  const IgnoredNumWarning := "Warning: --num is ignored when --ids is provided"
  const IgnoredFiltersWarning := "Warning: --blocked/--min-priority/--due-before/--due-after are ignored when --ids is provided"
  const IgnoredTagsWarning := "Warning: --tag/--tag-id are ignored when --ids is provided"

  /** The options of `runGetCommand`; `numProvided` says whether `--num`
      was on the command line rather than defaulted. */
  datatype GetValues = GetValues(
    ids: Option<seq<real>>,
    num: real,
    numProvided: bool,
    blocked: Option<bool>,
    minPriority: Option<real>,
    dueBefore: Option<string>,
    dueAfter: Option<string>,
    tag: Option<string>,
    tagId: Option<real>)

  /** The todos `get` prints and the warnings it writes to standard error. */
  datatype GetOutput = GetOutput(todos: seq<TodoView>, warnings: seq<string>)

  predicate FiltersGiven(values: GetValues) {
    values.blocked.Some? || values.minPriority.Some? || Truthy(values.dueBefore) || Truthy(values.dueAfter)
  }

  predicate TagsGiven(values: GetValues) {
    Truthy(values.tag) || values.tagId.Some?
  }

  /** The warnings, in order: each option `--ids` makes irrelevant is
      reported once, and only when `--ids` is given. */
  function GetWarnings(values: GetValues): (w: seq<string>)
    ensures values.ids.None? ==> w == []
    ensures IgnoredNumWarning in w <==> values.ids.Some? && values.numProvided
    ensures IgnoredFiltersWarning in w <==> values.ids.Some? && FiltersGiven(values)
    ensures IgnoredTagsWarning in w <==> values.ids.Some? && TagsGiven(values)
    ensures NoRepeats(w)
  {
    if values.ids.None? then []
    else
      (if values.numProvided then [IgnoredNumWarning] else []) +
      (if FiltersGiven(values) then [IgnoredFiltersWarning] else []) +
      (if TagsGiven(values) then [IgnoredTagsWarning] else [])
  }

  predicate NoRepeats(w: seq<string>) {
    forall i, j :: 0 <= i < j < |w| ==> w[i] != w[j]
  }

  /** The filters `get` hands to `getTodosForGet`. */
  function GetFilters(values: GetValues, minPriority: Option<int>, tagId: Option<int>): (f: Filters)
    ensures f.statuses == [] && f.assignee.None? && f.hasAssignee.None? && f.leaseExpired.None?
    ensures f.blocked == values.blocked && f.minPriority == minPriority && f.tagId == tagId
    ensures f.dueBefore == values.dueBefore && f.dueAfter == values.dueAfter
  {
    NoFilters.(blocked := values.blocked, minPriority := minPriority, dueBefore := values.dueBefore,
      dueAfter := values.dueAfter, tagId := tagId)
  }

  /** `--min-priority`, parsed as a priority when given. */
  function GetMinPriority(values: GetValues): (r: Result<Option<int>>)
    ensures values.minPriority.None? ==> r == Ok(None)
    ensures values.minPriority.Some? ==>
      (r.Ok? <==> ParsePriority(values.minPriority.value, "--min-priority").Ok?)
    ensures values.minPriority.Some? && r.Ok? ==>
      r.value.Some? && 1 <= r.value.value <= 5 && r.value.value as real == values.minPriority.value
    ensures r.Err? ==>
      values.minPriority.Some? && r == Err(ParsePriority(values.minPriority.value, "--min-priority").message)
  {
    if values.minPriority.None? then Ok(None)
    else
      var p :- ParsePriority(values.minPriority.value, "--min-priority");
      Ok(Some(p))
  }

  /** The tag condition of a listing. `Ok(None)` means nothing is listed:
      `--tag-id` names no stored tag, or `--tag` no stored path. Otherwise
      the value is the tag id to filter on, if any. */
  function GetTagFilter(db: Db, values: GetValues): (r: Result<Option<Option<int>>>)
    requires UniqueTagNames(db.tags) && TagsKeyedById(db.tags)
    ensures (values.tagId.Some? && ParsePositiveInteger(values.tagId.value, "--tag-id").Ok? &&
             ParsePositiveInteger(values.tagId.value, "--tag-id").value !in db.tags) ==> r == Ok(None)
    ensures values.tagId.Some? && ParsePositiveInteger(values.tagId.value, "--tag-id").Err? ==>
      r == Err(ParsePositiveInteger(values.tagId.value, "--tag-id").message)
    ensures (values.tagId.None? && Truthy(values.tag) && ResolveTagPath(db, values.tag.value) == Ok(None)) ==>
      r == Ok(None)
    ensures values.tagId.None? && !Truthy(values.tag) ==> r == Ok(Some(None))
    ensures r.Ok? && r.value.Some? && r.value.value.Some? ==> r.value.value.value in db.tags
  {
    var byId :- if values.tagId.None? then Ok(Some(None))
      else
        var n :- ParsePositiveInteger(values.tagId.value, "--tag-id");
        Ok(if n in db.tags then Some(Some(n)) else None);
    if byId.None? then Ok(None)
    else if !Truthy(values.tag) then Ok(Some(byId.value))
    else
      var found :- ResolveTagPath(db, values.tag.value);
      Ok(if found.Some? then Some(Some(found.value.id)) else None)
  }

  /** The listing of `get` without `--ids`: the limit must be a positive
      integer, and the rows are those `getTodosForGet` returns for the
      filters, in the default order. */
  function GetListing(db: Db, now: nat, values: GetValues, minPriority: Option<int>): (r: Result<seq<TodoView>>)
    requires KeyedById(db.todos) && UniqueTagNames(db.tags) && TagsKeyedById(db.tags)
    ensures r.Ok? ==>
      ParsePositiveInteger(values.num, "--num").Ok? &&
      |r.value| <= ParsePositiveInteger(values.num, "--num").value
    ensures r.Ok? ==> GetTagFilter(db, values).Ok?
    ensures r.Ok? && GetTagFilter(db, values).value.None? ==> r.value == []
    ensures r.Ok? && GetTagFilter(db, values).value.Some? ==>
      forall i :: 0 <= i < |r.value| ==>
        var t := r.value[i].row;
        t.id in db.todos && db.todos[t.id] == t &&
        Matches(db, now, GetFilters(values, minPriority, GetTagFilter(db, values).value.value), t)
    ensures r.Ok? ==>
      forall i, j :: 0 <= i < j < |r.value| ==> Precedes(Default, r.value[i].row, r.value[j].row)
    ensures r.Ok? <==> ParsePositiveInteger(values.num, "--num").Ok? && GetTagFilter(db, values).Ok?
    ensures r.Ok? && GetTagFilter(db, values).value.Some? ==>
      r.value == GetTodosForGet(db, now, GetFilters(values, minPriority, GetTagFilter(db, values).value.value),
        Default, ParsePositiveInteger(values.num, "--num").value)
  {
    var limit :- ParsePositiveInteger(values.num, "--num");
    var tag :- GetTagFilter(db, values);
    if tag.None? then Ok([])
    else Ok(GetTodosForGet(db, now, GetFilters(values, minPriority, tag.value), Default, limit))
  }

  /** What the filters of a listing require of a row. */
  lemma MatchesGetFilters(db: Db, now: nat, values: GetValues, minPriority: Option<int>, tagId: Option<int>, t: TodoRow)
    requires KeyedById(db.todos) && t.id in db.todos && db.todos[t.id] == t
    requires Matches(db, now, GetFilters(values, minPriority, tagId), t)
    requires minPriority.Some? ==> values.minPriority.Some? && minPriority.value as real == values.minPriority.value
    ensures values.blocked.Some? ==> (values.blocked.value <==> IsBlocked(db, t.id))
    ensures minPriority.Some? ==> t.priority.Some? && t.priority.value as real >= values.minPriority.value
    ensures DueBeforeOk(NoFilters.(dueBefore := values.dueBefore), t)
    ensures DueAfterOk(NoFilters.(dueAfter := values.dueAfter), t)
  {
  }

  /** `runGetCommand`. `--tag` with `--tag-id` and a bad `--min-priority`
      fail whatever else is given. With `--ids` the listed todos come back
      and every filter and the limit are ignored. Otherwise the limit must
      be a positive integer, an unknown tag id or path gives an empty list
      rather than an error, and the remaining options filter the default
      scheduling order. */
  function RunGetCommand(db: Db, now: nat, values: GetValues): (r: Result<GetOutput>)
    requires KeyedById(db.todos) && UniqueTagNames(db.tags) && TagsKeyedById(db.tags)
    ensures Truthy(values.tag) && values.tagId.Some? ==> r == Err(BothTagsError)
    ensures (!(Truthy(values.tag) && values.tagId.Some?) && values.minPriority.Some? &&
             ParsePriority(values.minPriority.value, "--min-priority").Err?) ==>
      r == Err(ParsePriority(values.minPriority.value, "--min-priority").message)
    ensures r.Ok? ==> r.value.warnings == GetWarnings(values)
    ensures r.Ok? && values.ids.Some? ==>
      ParseAll(values.ids.value, "--ids").Ok? &&
      forall x :: x in IdsOf(r.value.todos) <==> x in ParseAll(values.ids.value, "--ids").value && x in db.todos
    ensures r.Ok? && values.ids.None? ==>
      GetMinPriority(values).Ok? && GetListing(db, now, values, GetMinPriority(values).value).Ok? &&
      r.value.todos == GetListing(db, now, values, GetMinPriority(values).value).value
  {
    if Truthy(values.tag) && values.tagId.Some? then Err(BothTagsError)
    else
      var minPriority :- GetMinPriority(values);
      var warnings := GetWarnings(values);
      if values.ids.Some? then
        var ids :- ParseAll(values.ids.value, "--ids");
        Ok(GetOutput(GetTodosByIds(db, ids), warnings))
      else
        var todos :- GetListing(db, now, values, minPriority);
        Ok(GetOutput(todos, warnings))
  }

  /** Without `--ids` the limit bounds the listing, an unknown tag id or
      path empties it, and every row is stored, passes each given filter
      and comes in the default order. */
  lemma GetListsFiltered(db: Db, now: nat, values: GetValues)
    requires KeyedById(db.todos) && UniqueTagNames(db.tags) && TagsKeyedById(db.tags)
    requires values.ids.None? && RunGetCommand(db, now, values).Ok?
    ensures var todos := RunGetCommand(db, now, values).value.todos;
      ParsePositiveInteger(values.num, "--num").Ok? &&
      |todos| <= ParsePositiveInteger(values.num, "--num").value &&
      ((values.tagId.Some? && ParsePositiveInteger(values.tagId.value, "--tag-id").Ok? &&
        ParsePositiveInteger(values.tagId.value, "--tag-id").value !in db.tags) ==> todos == []) &&
      ((values.tagId.None? && Truthy(values.tag) && ResolveTagPath(db, values.tag.value) == Ok(None)) ==> todos == []) &&
      forall i, j :: 0 <= i < j < |todos| ==> Precedes(Default, todos[i].row, todos[j].row)
    ensures var todos := RunGetCommand(db, now, values).value.todos;
      forall i :: 0 <= i < |todos| ==>
        var t := todos[i].row;
        t.id in db.todos && db.todos[t.id] == t &&
        (values.blocked.Some? ==> (values.blocked.value <==> IsBlocked(db, t.id))) &&
        (values.minPriority.Some? ==> t.priority.Some? && t.priority.value as real >= values.minPriority.value) &&
        DueBeforeOk(NoFilters.(dueBefore := values.dueBefore), t) &&
        DueAfterOk(NoFilters.(dueAfter := values.dueAfter), t)
  {
    var minPriority := GetMinPriority(values).value;
    var todos := RunGetCommand(db, now, values).value.todos;
    if GetTagFilter(db, values).value.None? {
      return;
    }
    var tagId := GetTagFilter(db, values).value.value;
    forall i | 0 <= i < |todos|
      ensures var t := todos[i].row;
        t.id in db.todos && db.todos[t.id] == t &&
        (values.blocked.Some? ==> (values.blocked.value <==> IsBlocked(db, t.id))) &&
        (values.minPriority.Some? ==> t.priority.Some? && t.priority.value as real >= values.minPriority.value) &&
        DueBeforeOk(NoFilters.(dueBefore := values.dueBefore), t) &&
        DueAfterOk(NoFilters.(dueAfter := values.dueAfter), t)
    {
      MatchesGetFilters(db, now, values, minPriority, tagId, todos[i].row);
    }
  }

  /** With `--ids`, the limit, the filters and the tag options change only
      the warnings, never the todos. */
  lemma IdsIgnoreFilters(db: Db, now: nat, values: GetValues, other: GetValues)
    requires KeyedById(db.todos) && UniqueTagNames(db.tags) && TagsKeyedById(db.tags)
    requires values.ids.Some? && other.ids == values.ids
    requires RunGetCommand(db, now, values).Ok? && RunGetCommand(db, now, other).Ok?
    ensures RunGetCommand(db, now, values).value.todos == RunGetCommand(db, now, other).value.todos
  {
  }

  /** Without `--ids` no warning is printed, whatever else is given. */
  lemma NoWarningsWithoutIds(db: Db, now: nat, values: GetValues)
    requires KeyedById(db.todos) && UniqueTagNames(db.tags) && TagsKeyedById(db.tags)
    requires values.ids.None? && RunGetCommand(db, now, values).Ok?
    ensures RunGetCommand(db, now, values).value.warnings == []
  {
  }
}
