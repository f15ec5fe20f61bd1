# sitback core, modelled in Dafny

sitback is a todo tracker for people and agents. Todos live in a SQLite
store with three tables: `todos`, `tags` (a hierarchy of lane names) and
`todo_dependencies` (edges that make a successor wait for a predecessor).
A todo is *blocked* while one of its predecessors is not `completed`.
Work is handed out by *claim*: an atomic update that picks the first
eligible todo in scheduling order and leases it to an assignee for a
number of minutes. On top of the store sit a command line (`get`,
`claim`, `update`, tag and export commands), a markdown exporter and a
web dashboard that filters todos, draws them as a dependency graph and
keeps its view state in the URL.

This project models that core as pure Dafny functions over an immutable
store and proves what the code promises about it:

- `Schema` — the tables and their declared constraints (`Valid`), the
  blocked condition, the tag subtree of the recursive `descendants` query.
- `Scheduling` — the `ORDER BY` clauses of listing and claim, and the
  in-memory comparator of the older query module.
- `Tags`, `TagForest` — tag paths (normalise, resolve, ensure), tag moves
  and cascading deletes, the sorted tag forest and the tag summaries.
- `Dependencies`, `TodoMutations` — adding and replacing predecessors,
  creating, updating and deleting todos, `addTodo` and
  `updateTodoWithRelations`.
- `TodoQueries`, `LegacyTodoQueries`, `Claim` — the filtered, ordered and
  limited listings, the count, lookups by id, the ready and next todos,
  and the claim transition.
- `Export`, `Markdown` — the export tree (tag forest plus the nested todo
  DAG) and its markdown rendering.
- `TagScope`, `TodoGraph`, `UrlState`, `DashServer` — the dashboard:
  filtering and tag scoping, the dependency graph layout, the URL state
  codec and the server functions that write todos.
- `CliParsers`, `CliCommands` — the argument validators and the `claim`,
  `update` and `get` commands.

`Wrappers`, `Text`, `Numbers`, `Lists`, `Sorting` and `Closure` are
general helpers: results and options, string functions, a sort of a set
by a strict total order, and the least set reachable through a relation.

The clock (`CURRENT_TIMESTAMP`) is a parameter `now` in seconds; SQLite's
AUTOINCREMENT is a counter kept in the store (`nextTodoId`,
`nextTagId`), so ids are never reused. When the database rejects a
statement, the model returns `Err` with the constraint's message and the
statement writes nothing; earlier statements of an operation that is not
wrapped in a transaction stay written.

## Model

| member | source | states |
|---|---|---|
| Scheduling.OrderingOf | packages/db/src/queries/todos.ts:121-152 | without a sort column the listing uses the scheduling order whatever direction is asked for; with one, it sorts by that column, descending exactly when `desc` is asked for |
| Scheduling.PrecedesStrictTotal | packages/db/src/queries/todos.ts:121-152 | every ordering, with its id tie-breaker, is a strict total order on the rows of one table, so a listing's order is fully determined |
| Scheduling.CompareForScheduling | src/db/queries/todos.ts:28-44 | the comparator returns zero only when due date (null as `9999-12-31`), priority (null as 0) and id all coincide, and is negative exactly when the first row comes first in the scheduling `ORDER BY` |
| Scheduling.CompareZeroOnlyForSameRow | src/db/queries/todos.ts:28-44 | on the rows of one table the comparator is zero exactly for a row compared with itself |
| Scheduling.CompareAgreesWithSchedule | src/db/queries/todos.ts:28-44 | the comparator is negative exactly when the first row comes first under earliest due date, then highest priority, then lowest id |
| Scheduling.CompareAntisymmetric | src/db/queries/todos.ts:28-44 | swapping the arguments flips the sign of the comparator |
| Scheduling.CompareTransitive | src/db/queries/todos.ts:28-44 | "compares below" is transitive, so the comparator is a valid sort order |
| Scheduling.CompareSortIsScheduleSort | src/db/queries/todos.ts:209-216 | sorting with the comparator gives the same sequence as the SQL `ORDER BY` of the same query |
| Schema.StatusName | packages/db/src/queries/todos.ts:22 | the stored status text is made of lower-case letters and underscores |
| Schema.ParseStatus | packages/db/src/queries/todos.ts:22 | a column text is read as a status only when it is that status's name |
| Schema.ParseStatusName | packages/db/src/queries/todos.ts:22 | reading back the name of every status gives the status |
| Schema.Preds | packages/db/src/queries/todos.ts:29-31 | the predecessors of a todo are exactly the ids of the dependency rows naming it as successor |
| Schema.Subtree | packages/db/src/queries/todos.ts:223-240 | the `descendants` set holds the seed tag and every tag whose parent it holds |
| Schema.Empty | src/db/schema.ts:14-87 | the freshly migrated empty store meets every declared constraint |
| Schema.BlockedIffIncompletePredecessor | packages/db/src/queries/todos.ts:26-34 | a todo is blocked exactly when one of its recorded predecessors exists and is not `completed` |
| Schema.CompletingLastPredecessorUnblocks | packages/db/src/queries/todos.ts:26-34 | once every other predecessor is completed, completing the last one unblocks the successor |
| Tags.NormalizeTagPath | src/db/queries/tags.ts:99-113 | a path is accepted exactly when no trimmed segment is empty and every lower-cased segment is `[a-z0-9]+`; the result is those segments; each rejection carries its own message |
| Tags.NormalizeJoined | src/db/queries/tags.ts:99-113 | a normalised path joined with `/` normalises back to the same segments |
| Tags.FindTag | src/db/queries/tags.ts:88-97 | the lookup returns the tag with that name under that parent (a null parent meaning top level), and `None` only when no such tag exists |
| Tags.ResolveTagPath | src/db/queries/tags.ts:115-132 | fails exactly when the path does not normalise; otherwise finds a tag exactly when every segment resolves below the previous one, and that tag bears the last segment's name |
| Tags.CreateTag | src/db/queries/tags.ts:60-64 | a new tag takes the next AUTOINCREMENT id, unused before, and is then what the lookup finds for its name and parent |
| Tags.StepSegment | src/db/queries/tags.ts:145-158 | one segment reuses the tag found, writing nothing, or creates it with the next counter id; either way the lookup then finds it, and at most that one tag is new |
| Tags.Walk | src/db/queries/tags.ts:142-158 | after the creation loop the whole path resolves to the tag returned; only tags were added, at most one per segment and with the counter's next ids, and every new tag is an ancestor of (or is) the tag returned |
| Tags.ResolvedBelow | src/db/queries/tags.ts:145-158 | a path resolved from below a tag ends inside that tag's subtree |
| Tags.EnsureTagPath | src/db/queries/tags.ts:134-165 | fails exactly when the path does not normalise; otherwise returns a stored tag named after the last segment, changing only the tags table; the new tags carry the counter's next ids, are at most one per segment, and each lies on the path to the tag returned |
| Tags.EnsureCreatesAtMostPath | src/db/queries/tags.ts:134-165 | the number of tags created is at most the number of path segments |
| Tags.EnsureThenResolve | src/db/queries/tags.ts:134-165 | after `ensureTagPath`, resolving the same path finds the tag it returned |
| Tags.EnsureExistingIsNoop | src/db/queries/tags.ts:136-140 | on a path that already resolves, `ensureTagPath` writes nothing and returns the resolved tag |
| Tags.EnsureIdempotent | src/db/queries/tags.ts:134-165 | ensuring the same path twice returns the same tag and the second call writes nothing |
| Tags.CreateKeepsTagsValid | src/db/schema.ts:21-37 | a tag with a valid name created under an existing parent keeps names valid, parents present and the hierarchy acyclic |
| Tags.EnsureKeepsValid | src/db/queries/tags.ts:134-165 | `ensureTagPath` keeps every constraint of the store |
| Tags.DeleteTag | src/db/queries/tags.ts:82-86 | deleting a known tag removes exactly its subtree and clears the tag of the todos tagged inside it, keeping those todos and all edges; an unknown id changes nothing |
| Tags.DeleteTagKeepsValid | src/db/queries/tags.ts:82-86 | deleting a tag keeps every constraint of the store |
| Tags.SetTagParent | src/db/queries/tags.ts:76-80 | a move of a known tag succeeds exactly when the new parent exists, lies outside the tag's own subtree, and has no other child of the same name; the three failures give the foreign-key, cycle and UNIQUE errors; a successful move changes only that tag's parent; an unknown id changes nothing |
| Tags.MoveKeepsAcyclic | src/db/queries/tags.ts:76-80 | moving a tag anywhere outside its own subtree keeps the hierarchy acyclic |
| Tags.SetTagParentKeepsValid | src/db/queries/tags.ts:76-80 | an accepted move keeps every constraint of the store |
| Dependencies.AddDependency | src/db/queries/dependencies.ts:5-7 | the insert succeeds exactly when both todos exist, they differ, the edge is new and the successor does not already come before the predecessor; it then adds exactly that edge; the foreign key and not-self rejections carry SQLite's messages |
| Dependencies.AddKeepsAcyclic | src/db/queries/dependencies.ts:5-7 | an accepted edge keeps the dependency graph acyclic |
| Dependencies.AddDependencyKeepsValid | src/db/queries/dependencies.ts:5-7 | an accepted edge keeps every constraint of the store |
| Dependencies.AddDependencyAddsOnePredecessor | src/db/queries/dependencies.ts:5-7 | an accepted edge adds its predecessor to its successor's predecessors and changes no other todo's predecessors |
| Dependencies.ReverseEdgeRejected | src/db/queries/dependencies.ts:5-7 | with `b` waiting for `a`, making `a` wait for `b` is rejected |
| Dependencies.TwoPredecessors | src/db/queries/dependencies.ts:5-7 | one todo can wait for two different todos |
| Dependencies.WithoutPredecessors | src/db/queries/dependencies.ts:17 | the delete removes exactly the edges naming the todo as successor |
| Dependencies.InsertEach | src/db/queries/dependencies.ts:19-21 | the insert loop adds only acceptable edges to the todo, adds all of them exactly when every id is acceptable, and never creates a cycle |
| Dependencies.ReplaceTodoPredecessors | src/db/queries/dependencies.ts:9-23 | the transaction succeeds exactly when every id is acceptable once the old edges are gone; it then replaces the todo's edges by one edge per distinct id, and on failure nothing changes |
| Dependencies.ReplaceSetsPredecessors | src/db/queries/dependencies.ts:9-23 | afterwards the todo's predecessors are exactly the ids given |
| Dependencies.ReplaceKeepsOtherSuccessors | src/db/queries/dependencies.ts:17-21 | every other todo keeps its predecessors, and the todos and tags are untouched |
| Dependencies.ReplaceWithEmptyUnblocks | src/db/queries/dependencies.ts:9-23 | replacing with no ids always succeeds and leaves the todo unblocked |
| Dependencies.ReplaceWithIncompleteBlocks | src/db/queries/dependencies.ts:9-23 | replacing with a list holding an incomplete todo leaves the todo blocked |
| Dependencies.ReplaceDependsOnSetOnly | src/db/queries/dependencies.ts:14 | duplicates and order in the id list change neither the verdict nor the result |
| Dependencies.ReplaceIdempotent | src/db/queries/dependencies.ts:9-23 | replacing again with the same ids succeeds and changes nothing |
| Dependencies.ReplaceKeepsValid | src/db/queries/dependencies.ts:9-23 | an accepted replacement keeps every constraint of the store |
| TodoMutations.CreateTodo | packages/db/src/queries/todos.ts:154-158 | the insert succeeds exactly when the priority is null or 1 to 5 and the tag, if any, exists; the new row gets the next id and the given values |
| TodoMutations.CreateTodoIsFresh | packages/db/src/queries/todos.ts:154-158 | a created todo has an id never used before, waits for nothing and is not blocked |
| TodoMutations.CreateTodoKeepsValid | packages/db/src/queries/todos.ts:154-158 | an accepted insert keeps every constraint of the store |
| TodoMutations.ApplyLaws | packages/db/src/queries/todos.ts:176-180 | applying no changes leaves a row as it is, applying the same changes twice equals applying them once, and only supplied fields change |
| TodoMutations.UpdateTodo | packages/db/src/queries/todos.ts:176-180 | an unknown id updates nothing; completing a blocked todo, an invalid priority or a missing tag are rejected; otherwise exactly that row takes the changed fields |
| TodoMutations.CompletionGuard | packages/db/src/queries/todos.ts:176-180 | a blocked todo cannot be set to `completed` |
| TodoMutations.CompletionAllowedWhenUnblocked | packages/db/src/queries/todos.ts:176-180 | once all its predecessors are completed a todo can be completed |
| TodoMutations.UpdateTodoKeepsValid | packages/db/src/queries/todos.ts:176-180 | an accepted update keeps every constraint of the store |
| TodoMutations.DeleteTodo | packages/db/src/queries/todos.ts:182-186 | deleting removes the row and every edge that names it, on either side, and returns the removed row |
| TodoMutations.DeleteTodoUnblocks | packages/db/src/queries/todos.ts:182-186 | a deleted todo leaves every predecessor set it was in, and no todo becomes blocked |
| TodoMutations.DeleteOnlyPredecessor | packages/db/src/queries/todos.ts:182-186 | deleting a todo's only predecessor leaves it without dependencies and unblocked |
| TodoMutations.DeleteTodoKeepsValid | packages/db/src/queries/todos.ts:182-186 | deleting a todo keeps every constraint of the store |
| TodoMutations.NewTodoOf | packages/db/src/queries/todos.ts:404-411 | the new row defaults to status `todo`, takes the resolved tag and starts unassigned |
| TodoMutations.AddTag | packages/db/src/queries/todos.ts:402 | an absent or empty tag path resolves to no tag without writing; a non-empty one fails exactly when `ensureTagPath` fails |
| TodoMutations.AddTodo | packages/db/src/queries/todos.ts:390-424 | succeeds exactly when the tag path is missing, empty or normalisable, the priority is valid and every predecessor id is a stored todo; the returned todo is then the stored new row with the given description, status (default `todo`), priority, work notes and due date, carrying the id of the tag the path ensured, and waiting for exactly the ids given; an invalid path fails with the path's message and writes nothing; every outcome keeps the store valid |
| TodoMutations.AddTagged | packages/db/src/queries/todos.ts:404-423 | once the tag is known, succeeds exactly when the priority is valid, the tag (if any) is stored and every predecessor id is a stored todo; the new row then carries the given tag, priority, work notes and due date and waits for exactly the ids given |
| TodoMutations.AddPredecessors | packages/db/src/queries/todos.ts:417-423 | the predecessor loop leaves the rows alone; it succeeds exactly when every id may precede the todo (stored, and not reachable from it), which for a todo nothing waits for means every id is stored and is not the todo itself; on success the todo waits for exactly the distinct ids given |
| TodoMutations.InsertEachKeepsValid | packages/db/src/queries/todos.ts:419-421 | inserting the predecessors one by one keeps every constraint whether or not an insert fails |
| TodoMutations.AddTodoKeepsRowOnLateFailure | packages/db/src/queries/todos.ts:404-421 | when a predecessor insert fails after the row was created, the row stays (no transaction) |
| TodoMutations.UpdateTodoWithRelations | packages/db/src/queries/todos.ts:426-448 | an unknown id changes nothing; without changes or ids it only re-reads the todo; the call fails exactly when the field update or the predecessor replacement is rejected, and a rejected field update writes nothing; on success the returned todo is the stored row with the changes applied; without ids the edges stay; with ids the predecessors become exactly those ids; no other todo's row or predecessors change, and tags never change |
| TodoMutations.UpdateKeepsChangesOnFailedReplace | packages/db/src/queries/todos.ts:439-445 | when the predecessor replacement fails after the field update, the field update stays written |
| TodoMutations.UpdateTodoWithRelationsKeepsValid | packages/db/src/queries/todos.ts:426-448 | every outcome keeps the store valid |
| Claim.Pool | packages/db/src/queries/todos.ts:242-258 | the candidate rows are exactly the stored todos that are `todo` or `in_progress`, not blocked, unassigned or holding an expired lease, and inside the requested tag subtree |
| Claim.Leased | packages/db/src/queries/todos.ts:303-309 | the claimed row becomes `in_progress`, assigned to the claimant, leased until now plus the lease minutes, and keeps every other column |
| Claim.Target | packages/db/src/queries/todos.ts:285-326 | with an id, that todo is taken exactly when it is claimable; without one, a todo is taken exactly when the pool is non-empty, and it is scheduled before every other candidate |
| Claim.ClaimTodo | packages/db/src/queries/todos.ts:260-333 | a claim that finds nothing writes nothing and returns nothing; otherwise exactly the target row is leased and returned as re-read, with its blocked flag |
| Claim.TargetIgnoresAssignee | packages/db/src/queries/todos.ts:303-326 | the todo taken does not depend on who claims it |
| Claim.AssignedWithoutLeaseNeverEligible | packages/db/src/queries/todos.ts:246 | an assigned todo with a null lease is never claimable (`null <= now` is not true) |
| Claim.LeaseGuardsClaim | packages/db/src/queries/todos.ts:246 | a leased todo cannot be claimed before its lease ends, and an unblocked `in_progress` one can be reclaimed by id once it has ended |
| Claim.ClaimedIsNotReclaimable | packages/db/src/queries/todos.ts:269 | right after a claim with a positive lease, the claimed todo stays unclaimable until the lease runs out |
| Claim.ClaimSucceedsIffClaimable | packages/db/src/queries/todos.ts:303-332 | a claim without an id succeeds exactly when some stored todo is claimable |
| Claim.ClaimTakesFirstInSchedule | packages/db/src/queries/todos.ts:323-324 | a claim without an id takes the claimable todo that comes first by earliest due date, highest priority, lowest id |
| Claim.ClaimWritesOneRow | packages/db/src/queries/todos.ts:303-309 | every other row, the tags and the dependencies are unchanged by a claim |
| Claim.ClaimKeepsValid | packages/db/src/queries/todos.ts:260-333 | a claim keeps every constraint of the store |
| TodoQueries.View | packages/db/src/queries/todos.ts:36-58 | a returned row carries `isBlocked` true exactly when the todo is blocked |
| TodoQueries.GetTodoById | packages/db/src/queries/todos.ts:160-168 | a todo is returned exactly when the id is stored, as stored, with its blocked flag |
| TodoQueries.FiltersConjunctive | packages/db/src/queries/todos.ts:60-119 | without options every row matches, and a row matches several options exactly when it matches each of them alone |
| TodoQueries.FilterEdgeCases | packages/db/src/queries/todos.ts:60-119 | an empty status list filters nothing; the bounds on priority and due date are inclusive; a null priority, due date or tag never passes a filter on it; an empty date bound is ignored; a null lease counts as not expired |
| TodoQueries.MatchingRows | packages/db/src/queries/todos.ts:60-119 | the rows are exactly the stored rows satisfying every given condition |
| TodoQueries.ListRows | packages/db/src/queries/todos.ts:355-360 | the listing holds matching rows only, in the requested order, `min(limit, matches)` of them, and every matching row left out comes after every row listed |
| TodoQueries.GetTodosForGet | packages/db/src/queries/todos.ts:335-363 | the result is the first `limit` matching todos in the requested order (all of them for a negative limit): exactly min(limit, matches) todos, each stored, matching the filters and carrying its blocked flag, in strictly increasing order, and every matching todo left out comes after each one returned |
| TodoQueries.CountTodosForGet | packages/db/src/queries/todos.ts:365-388 | the count never exceeds the number of todos |
| TodoQueries.CountIsUnlimitedLength | packages/db/src/queries/todos.ts:365-388 | the count uses the listing's conditions: it is the length of the unlimited listing, and a limited listing holds `min(limit, count)` rows |
| TodoQueries.GetTodosByIds | packages/db/src/queries/todos.ts:206-221 | each requested id that is stored comes back once, unknown ids are skipped, the rows are as stored with their blocked flag, and no ids give no rows |
| TodoQueries.ByIdsInRequestOrder | packages/db/src/queries/todos.ts:220 | the todos come back in the order of their first request |
| TodoQueries.GetReadyTodos | packages/db/src/queries/todos.ts:188-204 | a stored todo is ready exactly when its status is `todo` and it is not blocked |
| TodoQueries.ReadyIsFilteredListing | packages/db/src/queries/todos.ts:188-204 | the ready todos are the rows the listing filters select for status `todo` and not blocked |
| LegacyTodoQueries.LegacyMatchingRows | src/db/queries/todos.ts:168-203 | the rows are the stored rows that meet every given condition and, under `actionableOnly`, are `todo` and not blocked |
| LegacyTodoQueries.FetchedRows | src/db/queries/todos.ts:205-214 | the SQL query returns min(limit, matches) matching rows in scheduling order (all of them for a negative limit), and every matching row left out comes after those returned |
| LegacyTodoQueries.LegacyListRows | src/db/queries/todos.ts:156-217 | the result is the first `limit` matching rows in comparator order: exactly min(limit, matches) of them, sorted by the comparator, and every matching row left out compares after each one returned |
| LegacyTodoQueries.ResortFetched | src/db/queries/todos.ts:209-216 | the comparator is a strict total order on the fetched rows, and sorting them with it gives them back in fetch order |
| LegacyTodoQueries.ResortKeepsFetchOrder | src/db/queries/todos.ts:209-216 | the in-memory sort after the query changes nothing: it agrees with the `ORDER BY` |
| LegacyTodoQueries.GetNextTodos | src/db/queries/todos.ts:149-154 | the next todos are the first `limit` ready todos in scheduling order: each stored, `todo` and unblocked, exactly min(limit, ready) of them, and every ready todo left out compares after each one returned |
| LegacyTodoQueries.ActionableIsReady | src/db/queries/todos.ts:149-154 | with `actionableOnly` and no other option the matching rows are exactly the ready todos |
| LegacyTodoQueries.NextTodosTiesById | src/db/queries/todos.ts:28-44 | next todos with the same due date and priority come out by ascending id |
| LegacyTodoQueries.UnlimitedNextIsReady | src/db/queries/todos.ts:149-154 | without a limit the next todos are exactly the ready todos of `getReadyTodos` |
| TagForest.SiblingStrictTotal | src/db/queries/tags.ts:13-18 | name order with the id tie-breaker is a strict total order on the rows of one table |
| TagForest.RootRows | src/db/queries/tags.ts:35-47 | a tag is top level exactly when it has no parent or its parent is not among the rows |
| TagForest.Node | src/db/queries/tags.ts:20-58 | a tag's node carries its row and, as children, exactly the tags whose parent it is, sorted by name then id |
| TagForest.BuiltNests | packages/web/src/server/dashboard.ts:64-85 | in a built tree every node holds exactly its child rows sorted by (name, id), and each child is built the same way, at every depth |
| TagForest.Forest | src/db/queries/tags.ts:20-58 | the roots are exactly the top-level tags, sorted by name then id |
| TagForest.NodeCovers | src/db/queries/tags.ts:20-58 | a tag's tree lists exactly the tag and its descendants, each once |
| TagForest.ForestRoots | src/db/queries/tags.ts:49-52 | the top-level nodes are top-level tags with distinct ids |
| TagForest.ForestExactlyOnce | src/db/queries/tags.ts:20-58 | the forest places every tag exactly once |
| TagForest.RestrictSubtree | src/db/queries/tags.ts:174-192 | built from the rows of its own subtree, a tag reaches exactly that subtree |
| TagForest.GetTagSummary | src/db/queries/tags.ts:167-222 | an unknown tag has no summary; otherwise the summary carries the tag, a tree rooted at it and the number of todos tagged anywhere in its subtree |
| TagForest.TagSummaryTree | src/db/queries/tags.ts:167-222 | the summary tree holds exactly the tag and its descendants, each once |
| TagForest.GetAllTagsSummary | src/db/queries/tags.ts:224-246 | the whole forest holds every tag exactly once and the count is the number of tagged todos |
| TagForest.TagCountBounded | src/db/queries/tags.ts:224-246 | the overall count of tagged todos is at least any one tag's summary count |
| Export.Graph | src/db/queries/export.ts:72-82 | the export keeps exactly the dependency rows whose predecessor and successor are both todos |
| Export.Expand | src/db/queries/export.ts:53-87 | a todo's node copies its row and blocked flag, lists its kept predecessors ascending, and has as children its successors, ascending by id |
| Export.TodoTree | src/db/queries/export.ts:89-91 | the top level holds exactly the todos without kept predecessors, ascending by id |
| Export.GetExportTree | src/db/queries/export.ts:6-97 | the tag tree places every tag exactly once, top level sorted by name then id, and the todo tree's top level is the todos without predecessors, ascending |
| Export.ValidExports | src/db/queries/export.ts:72-82 | in a valid store no dependency row is skipped and both trees can be built |
| Export.PredecessorIdsComplete | src/db/queries/export.ts:80-85 | in a valid store a node lists all predecessors of its todo, ascending |
| Export.BlockedFromPredecessorIds | src/db/queries/export.ts:66 | a node's blocked flag agrees with its predecessor list: some listed predecessor is not completed |
| Export.PredecessorChildAgree | src/db/queries/export.ts:80-81 | `p` is among the predecessors of `s` exactly when `s` is among the children of `p` |
| Export.ChildIsExpanded | src/db/queries/export.ts:80-86 | every child of a node is the full node of that successor, nested the same way |
| Export.UnderEachPredecessor | src/db/queries/export.ts:80-81 | a todo with several predecessors appears, whole, under each of them |
| Export.DanglingRowIgnored | src/db/queries/export.ts:76-78 | a dependency row with a missing endpoint changes nothing exported |
| Export.SameKeptSameExpansion | src/db/queries/export.ts:72-87 | two stores with the same todos and the same kept rows export the same nodes |
| Export.ExpandReaches | src/db/queries/export.ts:72-87 | a node's nested children hold exactly the todos that wait, directly or not, for it |
| Export.TodoTreeExpanded | src/db/queries/export.ts:89-91 | each top-level node is the full node of a todo with no predecessors |
| Export.TodoTreeCoversTodos | src/db/queries/export.ts:89-91 | every todo appears somewhere in the todo tree, and nothing else does |
| Markdown.Indent | packages/cli/src/export/command.ts:12 | the prefix is two spaces per level |
| Markdown.RenderTagsLines | packages/cli/src/export/command.ts:11-23 | the tag text is its lines joined by newlines, one line per tag of the forest in preorder |
| Markdown.RenderTagLines | packages/cli/src/export/command.ts:14-21 | one tag's text is its line followed by its children's lines, one line per tag of its subtree |
| Markdown.ForestSingleLine | packages/cli/src/export/command.ts:16 | tag names of a valid store contain no line break, so every tag is one line |
| Markdown.PredecessorsText | packages/cli/src/export/command.ts:30-31 | the predecessor text is `none` exactly when there are no predecessors |
| Markdown.PredecessorsTextInjective | packages/cli/src/export/command.ts:30-31 | different predecessor lists give different texts |
| Markdown.RenderTodosLines | packages/cli/src/export/command.ts:25-41 | the todo text is its lines joined by newlines, one line per node with each shared successor written out under every predecessor |
| Markdown.RenderTodoLines | packages/cli/src/export/command.ts:28-39 | one todo's text is its line followed by its children's lines |
| Markdown.TodoLineSingle | packages/cli/src/export/command.ts:32 | a todo with a single-line description renders as a single line |
| Markdown.TodoLinesSingle | packages/cli/src/export/command.ts:25-41 | a tree of single-line descriptions renders as lines without line breaks |
| Markdown.MarkdownJoin | packages/cli/src/export/command.ts:43-48 | the document is the header, the tag section, the todo header and the todo section joined by newlines |
| Markdown.MarkdownLines | packages/cli/src/export/command.ts:43-48 | with single-line names and descriptions, splitting the document at newlines gives back exactly those lines |
| Markdown.TagSectionCount | packages/cli/src/export/command.ts:44 | the tag section has one line per tag, or the placeholder alone when there are none |
| Markdown.TodoLineNotPlaceholder | packages/cli/src/export/command.ts:45 | a top-level todo line never reads as the `- (none)` placeholder |
| Markdown.TodoSectionEmpty | packages/cli/src/export/command.ts:45 | the todo section is the placeholder exactly when there are no todos |
| Markdown.ExportSingleLine | packages/cli/src/export/command.ts:43-48 | in a valid store whose descriptions are single lines, every tag and todo renders as one line |
| Markdown.ExportLines | packages/cli/src/export/command.ts:43-48 | the export of a valid store, read line by line, is the header, one line per tag or the placeholder, the todo header and the todo lines, the todo placeholder appearing exactly when there are no todos |
| TagScope.FindNode | packages/web/src/features/dashboard/lib/filtering.ts:3-19 | a node found carries the requested id |
| TagScope.FindNodeFinds | packages/web/src/features/dashboard/lib/filtering.ts:3-19 | the depth-first search finds a node exactly when the id occurs in the tree |
| TagScope.TagScopeIds | packages/web/src/features/dashboard/lib/filtering.ts:29-46 | no selection gives no scope; a non-empty scope contains the selected tag |
| TagScope.ScopeIsSubtree | packages/web/src/features/dashboard/lib/filtering.ts:29-46 | on the tag forest of a store, the scope of a tag is exactly its subtree, and an unknown tag gives the empty scope |
| TagScope.FilterTodosByTagScope | packages/web/src/features/dashboard/lib/filtering.ts:48-57 | no scope keeps every todo; a scope keeps exactly the todos whose tag lies in it, so untagged todos go |
| TagScope.FilterKeepsOrder | packages/web/src/features/dashboard/lib/filtering.ts:48-57 | filtering works on each part of a list alone, so the kept todos stay in their order |
| TagScope.SelectedTagFilter | packages/web/src/features/dashboard/lib/filtering.ts:29-57 | selecting a stored tag keeps exactly the todos tagged in its subtree |
| TagScope.PathExtends | packages/web/src/features/dashboard/lib/filtering.ts:64-65 | a top-level path is the name, and a child's path is its parent's path, a slash and its name |
| TagScope.BuildTagPathMap | packages/web/src/features/dashboard/lib/filtering.ts:59-73 | the map has a path for exactly the tags of the tree |
| TagScope.Flatten | packages/web/src/features/dashboard/lib/filtering.ts:75-91 | the listing has one entry per node, in preorder |
| TagScope.VisitIsApply | packages/web/src/features/dashboard/lib/filtering.ts:62-70 | the map's visit sets the paths in the order of the flat listing |
| TagScope.FlattenAgreesWithPathMap | packages/web/src/features/dashboard/lib/filtering.ts:59-91 | with distinct ids, every listed path is the one the path map holds |
| TagScope.RootPath | packages/web/src/features/dashboard/lib/filtering.ts:59-73 | a top-level tag's mapped path is its name |
| TagScope.ChildPath | packages/web/src/features/dashboard/lib/filtering.ts:59-73 | a child's mapped path is its parent's mapped path, a slash and its name |
| TagScope.ForestPathsDistinct | packages/web/src/features/dashboard/lib/filtering.ts:59-91 | on the tag forest of a store every tag gets a path and appears once in the listing |
| TodoGraph.Adjacency | packages/web/src/features/dashboard/lib/graph-mapper.ts:14-35 | every shown todo starts at level 0, with its shown successors in dependency order and the count of dependencies into it whose both ends are shown |
| TodoGraph.ComputeLevels | packages/web/src/features/dashboard/lib/graph-mapper.ts:10-60 | every shown todo gets a level of at least 0, and 0 when no kept dependency leads into it; with distinct ids and no cycle among kept dependencies, a successor sits at least one level past each of its predecessors |
| TodoGraph.Drain | packages/web/src/features/dashboard/lib/graph-mapper.ts:42-57 | the worklist loop keeps every level at least 0 and at 0 for todos no kept dependency leads into; on distinct ids it ends with an empty queue, every finished todo's successors past it, and unfinished exactly the todos still waiting on an unfinished predecessor |
| TodoGraph.NodeXs | packages/web/src/features/dashboard/lib/graph-mapper.ts:176-196 | a card's x is its level times 372, so it is a non-negative multiple of 372; a successor sits at least one column right of each predecessor when the kept dependencies have no cycle |
| TodoGraph.FlowEdges | packages/web/src/features/dashboard/lib/graph-mapper.ts:279-298 | the edges are exactly those of the dependencies with both endpoints shown, at most one per dependency |
| TodoGraph.FlowEdgesInOrder | packages/web/src/features/dashboard/lib/graph-mapper.ts:279-298 | the edges keep the order of the dependencies: the edges of a joined list are those of its parts in turn, and a single dependency yields its own edge exactly when both endpoints are shown |
| TodoGraph.EdgeIdInjective | packages/web/src/features/dashboard/lib/graph-mapper.ts:285 | two edges share an id only when they join the same predecessor and successor |
| TodoGraph.GroupKey | packages/web/src/features/dashboard/lib/graph-mapper.ts:62-87 | "untagged" without a tag path; the first path segment when no tag (or an empty path) is selected; "same tag" for the selected path; for a path below the selection, the segment at the depth just under it; for any other path, the first segment |
| TodoGraph.SameTagKey | packages/web/src/features/dashboard/lib/graph-mapper.ts:62-87 | on tag paths the lane is "same tag" exactly for the todos of the selected tag |
| TodoGraph.LaneTypeOfTodo | packages/web/src/features/dashboard/lib/graph-mapper.ts:89-99 | the same-tag colour exactly for todos of the selected tag, the untagged colour for every untagged todo |
| UrlState.ParseNumber | packages/web/src/features/dashboard/url-state.ts:14-27 | an integral number is kept as it is; a non-blank string counts when its numeric reading is integral; every other value is undefined |
| UrlState.ParseNumberOfInt | packages/web/src/features/dashboard/url-state.ts:15-17 | every integer number reads back as itself |
| UrlState.ParseStringUnion | packages/web/src/features/dashboard/url-state.ts:29-38 | the value is kept exactly when it is a string in the allowed list |
| UrlState.ValidateSearch | packages/web/src/features/dashboard/url-state.ts:40-80 | view defaults to list, status and blocked to all, sortBy and sortDir are present only for allowed values, untagged is true exactly for true, "true" and "1", q and tag only for strings |
| UrlState.ValidateRoundTrip | packages/web/src/features/dashboard/url-state.ts:40-80 | reading back a validated state written to the URL gives the same state |
| UrlState.ValidateIdempotent | packages/web/src/features/dashboard/url-state.ts:40-80 | validating the written form of a validated search changes nothing |
| UrlState.Merge | packages/web/src/features/dashboard/url-state.ts:86-89 | an empty patch leaves the previous state as it is |
| UrlState.ApplyPatch | packages/web/src/features/dashboard/url-state.ts:82-120 | the result holds no empty text, no all filter, no id 0 and no false flag, and otherwise agrees with the previous state overridden by the patch |
| UrlState.PatchOverrides | packages/web/src/features/dashboard/url-state.ts:86-117 | every field the patch sets to a value that is not dropped ends up in the result |
| UrlState.EmptyPatchKeepsCompact | packages/web/src/features/dashboard/url-state.ts:91-117 | an empty patch on a state without dropped values returns it unchanged |
| UrlState.PatchIdempotent | packages/web/src/features/dashboard/url-state.ts:82-120 | applying an empty patch to a patched state gives it back |
| DashServer.ValidatePriority | packages/web/src/server/dashboard.ts:39-47 | null and undefined pass, so does an integer from 1 to 5; every other number fails with the priority message |
| DashServer.ValidatePriorityAgrees | packages/web/src/server/dashboard.ts:39-47 | the dashboard accepts exactly the integer priorities the store's check constraint accepts |
| DashServer.NullIfBlank | packages/web/src/server/dashboard.ts:196-204 | absent and blank text become null; other text is trimmed |
| DashServer.NullIfBlankIdempotent | packages/web/src/server/dashboard.ts:196-204 | kept text is non-empty and trimmed, so normalising again changes nothing |
| DashServer.UpdateChanges | packages/web/src/server/dashboard.ts:179-218 | the change set holds exactly the supplied fields, with the description trimmed, assignee, lease and notes passed through `NullIfBlank` (blank or null to null, otherwise trimmed), and the priority replaced by the validated integer; it is empty exactly when nothing was supplied; only a bad priority fails |
| DashServer.BlankTextClears | packages/web/src/server/dashboard.ts:196-204 | a supplied blank or null assignee, lease or notes clears the column, and other supplied text is written trimmed |
| DashServer.PriorityWritten | packages/web/src/server/dashboard.ts:205-208 | a supplied priority is written as the integer from 1 to 5 it denotes, and an explicit null clears it |
| DashServer.NormalisedChanges | packages/web/src/server/dashboard.ts:193-207 | a change set built by these rules holds only stored-form text and valid priorities |
| DashServer.UpdateChangesRoundTrip | packages/web/src/server/dashboard.ts:179-218 | sending a normalised change set back as input yields that same change set |
| DashServer.UpdateChangesIdempotent | packages/web/src/server/dashboard.ts:179-218 | preparing the prepared changes again gives the same result |
| DashServer.PrepareCreate | packages/web/src/server/dashboard.ts:244-277 | a blank description fails first, then a bad priority; otherwise the row gets the trimmed description, status todo by default, the given priority (null when none was given), blank optional text nulled, and the predecessor ids without duplicates |
| DashServer.PrepareCreateIdempotent | packages/web/src/server/dashboard.ts:244-277 | sending a prepared row again prepares the same row |
| DashServer.DeleteEach | packages/web/src/server/dashboard.ts:303-308 | deleting the ids removes exactly those todos and every edge touching them, and returns the ids that existed |
| DashServer.DeleteDashboardTodos | packages/web/src/server/dashboard.ts:297-308 | no ids is a no-op returning none; otherwise exactly the named todos and their edges go, and the returned ids are distinct and exactly those that existed |
| DashServer.DeleteDashboardTodosAgain | packages/web/src/server/dashboard.ts:297-308 | deleting the same ids a second time deletes nothing |
| DashServer.DeleteDashboardTodosKeepsValid | packages/web/src/server/dashboard.ts:303-306 | deleting todos keeps the store valid |
| DashServer.PredecessorList | packages/web/src/server/dashboard.ts:318-320 | the list written is the input without duplicates and without the todo's own id |
| DashServer.SetPredecessorsAsWritten | packages/web/src/server/dashboard.ts:318-334 | succeeds exactly when the transactional replacement would, with the same store; when the insert fails, the todo has lost all its predecessors |
| DashServer.AsWrittenLosesPredecessors | packages/web/src/server/dashboard.ts:322-333 | after a rejected insert the todo has no predecessors left |
| DashServer.AsWrittenCounterexample | packages/web/src/server/dashboard.ts:318-334 | in the chain 1, 2, 3, asking todo 2 to wait for 1 and 3 is rejected, yet 2 no longer waits for 1 |
| DashServer.SetDashboardTodoPredecessors | packages/web/src/server/dashboard.ts:318-334 | on success the todo waits for exactly the given ids other than its own and no other todo's predecessors change; it fails exactly when the todo or some listed id is not stored, or some id would close a cycle, and then nothing changes |
| DashServer.SetPredecessorsKeepsValid | packages/web/src/server/dashboard.ts:318-334 | the corrected write keeps the store valid |
| DashServer.CorrectedCounterexample | packages/web/src/server/dashboard.ts:318-334 | with the corrected write, the rejected request leaves the store as it was |
| DashServer.RenameDashboardTag | packages/web/src/server/dashboard.ts:338-356 | a name that is not lower-case letters and digits after trim and lower-casing fails; otherwise only the tag's name changes, a missing id changes nothing, and it fails exactly when a sibling has the name |
| DashServer.RenameKeepsValid | packages/web/src/server/dashboard.ts:345-353 | a successful rename keeps the store valid |
| DashServer.CreateDashboardTag | packages/web/src/server/dashboard.ts:375-399 | the name is checked as for renaming; the tag is created, with the next id, exactly when the parent exists and no sibling has the name |
| DashServer.CreateDashboardTagKeepsValid | packages/web/src/server/dashboard.ts:382-393 | the created tag is found under its parent by name, and the store stays valid |
| DashServer.TagMap | packages/web/src/server/dashboard.ts:52-62 | the map holds a row for every id of the input, keyed by that id |
| DashServer.DashboardTagTree | packages/web/src/server/dashboard.ts:49-90 | the roots are the rows without a present parent, sorted by (name, id); every root is a built node, so each tag sits under its parent with its siblings sorted by (name, id) (see TagForest.BuiltNests); every row appears exactly once |
| CliParsers.DateYmd | packages/cli/src/types.ts:4-11 | accepted exactly when the trimmed value has the YYYY-MM-DD shape, returning the trimmed value; otherwise the message quotes the raw value |
| CliParsers.DateTimeSecond | packages/cli/src/types.ts:30-39 | accepted exactly when the trimmed value has the YYYY-MM-DD HH:MM:SS shape, returning the trimmed value |
| CliParsers.ShapedIsTrimmed | packages/cli/src/types.ts:5-10 | a value of either shape has no surrounding space |
| CliParsers.DateYmdIdempotent | packages/cli/src/types.ts:4-11 | parsing an accepted date again gives it back |
| CliParsers.DateTimeSecondIdempotent | packages/cli/src/types.ts:30-39 | parsing an accepted date-time again gives it back |
| CliParsers.NoCalendarCheck | packages/cli/src/types.ts:6 | only the shape is checked: 2024-02-31 is accepted |
| CliParsers.TagPathArg | packages/cli/src/types.ts:13-28 | accepted exactly when the store's path normaliser accepts the value, returning its segments joined by a slash; an empty segment fails with the non-empty message, a segment outside a-z0-9 with the alphanumeric one |
| CliParsers.TagPathArgIdempotent | packages/cli/src/types.ts:13-28 | parsing an accepted path again gives it back, and the store's normaliser reads the same segments from it |
| CliParsers.ParsePositiveInteger | src/commands/shared.ts:1-12 | a number is returned exactly when it is an integer above 0; otherwise the positive-integer message |
| CliParsers.ParsePriority | src/commands/shared.ts:14-21 | accepted exactly for integers 1 to 5; a value that is not a positive integer fails with the positive-integer message, one above 5 with the 1-to-5 message |
| CliParsers.ParseIntegers | src/commands/shared.ts:1-21 | every positive integer reads back as itself, and a priority is accepted exactly when the store would keep it |
| CliParsers.NormalizeName | packages/web/src/server/dashboard.ts:345-348 | the trimmed, lower-cased name is returned exactly when it is non-empty letters and digits |
| CliParsers.NormalizeTagName | src/commands/tags/shared.ts:1-8 | the result is the trimmed, lower-cased name and a valid tag name; it fails exactly when that is empty or holds a character outside a-z0-9 |
| CliParsers.NormalizeNameIdempotent | src/commands/tags/shared.ts:1-8 | a normalised name normalises to itself, and a valid tag name is accepted as it is |
| CliCommands.ParseAll | packages/cli/src/todos/update.ts:63 | the list is accepted exactly when every number is a positive integer, and then returned element by element |
| CliCommands.ParseAllOfInts | packages/cli/src/todos/get.ts:56 | a list of positive integers parses to itself |
| CliCommands.RunClaimCommand | packages/cli/src/todos/claim.ts:12-33 | a blank assignee fails first, then a bad lease length or id, and no error writes; a claim takes a claimable todo, the given one if an id was given, for the trimmed assignee with a lease of the given minutes; nothing to claim without an id prints null and means the pool is empty |
| CliCommands.ClaimFor | packages/cli/src/todos/claim.ts:18-33 | after the assignee check: a bad lease length fails first, a claim of a given id that takes nothing fails with the not-claimable message |
| CliCommands.ClaimTrimsAssignee | packages/cli/src/todos/claim.ts:13-25 | surrounding space in the assignee changes nothing |
| CliCommands.ClaimByIdSucceedsIffClaimable | packages/cli/src/todos/claim.ts:27-30 | with valid options and an id, the command succeeds exactly when that todo is claimable, and otherwise fails with "Todo <id> is not claimable" and writes nothing |
| CliCommands.ResolveUpdateTag | packages/cli/src/todos/update.ts:31-47 | a bad or unknown tag id fails, an unresolvable path fails; a resolved path wins over the tag id, and the result is always a stored tag |
| CliCommands.UpdatePriority | packages/cli/src/todos/update.ts:49-52 | a given priority is accepted exactly for integers 1 to 5 |
| CliCommands.UpdatePredecessors | packages/cli/src/todos/update.ts:59-64 | with clear, the list is empty whatever else is given; otherwise the given list, parsed as positive integers |
| CliCommands.ChangesOf | packages/cli/src/todos/update.ts:66-101 | the change set holds exactly the supplied fields, with the description and the work notes trimmed, and it is empty exactly when none was supplied |
| CliCommands.BuildUpdate | packages/cli/src/todos/update.ts:24-105 | the checks in their order (id, both tag options, tag lookups, priority, predecessors, blank description, nothing to update) and, when they pass, the request with the parsed id, the change set and the predecessor list |
| CliCommands.BuildUpdateLateErrors | packages/cli/src/todos/update.ts:75-105 | once the options parse, a blank description is refused, and an update naming nothing gives "No updates provided" |
| CliCommands.RunUpdateCommand | packages/cli/src/todos/update.ts:24-118 | a failed check writes nothing; an unknown todo gives "Todo <id> not found"; on success the returned row is the stored row with the changes applied, its blocked flag is derived from the new store, and the predecessors are the given list or unchanged |
| CliCommands.NoUpdatesProvided | packages/cli/src/todos/update.ts:103-105 | an update naming nothing is refused without a write |
| CliCommands.ClearWinsOverPredecessors | packages/cli/src/todos/update.ts:59-64 | with clear, the predecessor option makes no difference, even one that would not parse |
| CliCommands.ClearUnblocks | packages/cli/src/todos/update.ts:59-64 | a successful update with clear leaves the todo unblocked |
| CliCommands.GetWarnings | packages/cli/src/todos/get.ts:43-53 | each warning appears exactly when ids are given together with the option it names, at most once, and none without ids |
| CliCommands.GetFilters | packages/cli/src/todos/get.ts:91-98 | the listing filters carry the given blocked flag, priority floor, due bounds and tag, and nothing else |
| CliCommands.GetMinPriority | packages/cli/src/todos/get.ts:38-41 | a given priority floor is accepted exactly for integers 1 to 5 |
| CliCommands.GetTagFilter | packages/cli/src/todos/get.ts:67-89 | an unknown tag id or unresolvable path lists nothing instead of failing; a bad tag id fails; a filter tag is always stored |
| CliCommands.GetListing | packages/cli/src/todos/get.ts:65-103 | succeeds exactly when `--num` and the tag options parse; then nothing when the tag is unknown, and otherwise exactly the `getTodosForGet` result for the given filters, the default order and the parsed limit (at most the limit of rows, each stored and matching every filter, in scheduling order) |
| CliCommands.MatchesGetFilters | packages/cli/src/todos/get.ts:91-98 | a row that passes the filters has the requested blocked state, at least the priority floor and a due date within the bounds |
| CliCommands.RunGetCommand | packages/cli/src/todos/get.ts:19-104 | both tag options fail, then a bad priority floor; with ids, the todos are exactly the stored ones among the ids; otherwise the filtered listing; the warnings are those of GetWarnings |
| CliCommands.GetListsFiltered | packages/cli/src/todos/get.ts:65-103 | without ids the limit bounds the result, an unknown tag empties it, and every row passes each given filter, in the default order |
| CliCommands.IdsIgnoreFilters | packages/cli/src/todos/get.ts:55-63 | with ids, the limit, the filters and the tag options never change the todos |
| CliCommands.NoWarningsWithoutIds | packages/cli/src/todos/get.ts:43-53 | without ids no warning is printed |

## Left out

- SQL and ORM plumbing: the Drizzle client, pragmas, connection handling and migrations. The store is a value, and each query is a function of it.
- The SQL triggers for dependency cycles, tag cycles and completing a blocked todo are not part of the sources. Their effect is modelled as a failure that writes nothing, with stand-in messages (`Schema.DependencyCycleError`, `Schema.TagCycleError`, `Schema.BlockedCompletionError`).
- Which message SQLite raises when several constraints fail at once is not modelled. Only the fact that the statement fails is.
- The cascading tag delete, the cascading delete of a todo's dependency rows, `set null` on the todo's tag and the priority check come from the packages/db schema, which is not part of this model. src/db/schema.ts declares none of them. The model follows the behaviour packages/db's queries rely on.
- Statuses: src/db/schema.ts:12 lists three statuses; packages/db/src/queries/todos.ts:22 adds `cancelled`. The model has all four. The `update` command's option type (packages/cli/src/todos/update.ts:22) accepts only three; that restriction sits in the option parser and is not modelled.
- Concurrency: claim is one atomic transition, and interleavings and write serialisation are not modelled.
- Wall-clock time: `CURRENT_TIMESTAMP` and `datetime('now')` become the parameter `now`, in seconds. `createdAt` and `updatedAt` are carried along but never set by the model.
- JSON5 output: `Bun.JSON5.stringify`, the `json5` branch of `runExportCommand` (packages/cli/src/export/command.ts:50-55) and the text the commands print. A command's result is the data it would print.
- JavaScript numbers: option values are reals, and only the numeric branch of `parsePositiveInteger` is modelled. `Number.parseInt` on strings, NaN and the infinities are left out.
- `Number()` on URL strings is the parameter `toNumber` of `UrlState.ParseNumber`.
- Text: `localeCompare` is lexicographic order on characters. `toLowerCase` works on ASCII letters. `trim` strips ASCII whitespace: space, tab, LF, CR, VT and FF. Unicode whitespace (U+00A0, U+FEFF, U+2028 and the rest) is kept where JavaScript would strip it. Unicode case folding is left out.
- Pixel layout of the graph view: rows, group offsets, group bounds, group nodes, the sorted card order, the predecessor map and React Flow's node objects (packages/web/src/features/dashboard/lib/graph-mapper.ts:101-277). Only the column rule x = level × 372 and the edge list are modelled.
- React components, TanStack collections, routes and packages/web/src/server/todos.ts: UI and transport glue.
- The plain reads `getTodos`, `getTags` and `getTagById` are map lookups in the model and get no members of their own.
- The `fetchDashboard*` handlers (packages/web/src/server/dashboard.ts:92-158) read whole tables; only their `buildTagTree` step is modelled.
- The write of `updateDashboardTodo` (packages/web/src/server/dashboard.ts:216-220) is not modelled. `DashServer.UpdateChanges` models the change set it builds, the priority check and the "nothing supplied" short cut. The dashboard keeps the lease as text, while the store model holds it as seconds, so the change set is not fed into `TodoMutations.UpdateTodo`.
- `deleteDashboardTag` (packages/web/src/server/dashboard.ts:358-373) is a single delete by id. It behaves as `Tags.DeleteTag`, and returns whether a row went.
- The writes of `createDashboardTodo` (packages/web/src/server/dashboard.ts:251-288) are not modelled. `DashServer.PrepareCreate` models its checks and normalisation. The row insert is that of `TodoMutations.CreateTodo`. The edges go in afterwards as one multi-row statement, which is all or nothing on its own but not together with the row.
- Legacy copies whose logic is the same as a modelled one: `createTodo`, `getTodoById`, `updateTodo`, `deleteTodo`, `getReadyTodos`, `getTodosByIds`, `addTodo` and `updateTodoWithRelations` in src/db/queries/todos.ts (the last two carry two extra artifact columns). Also src/db/queries.ts, the src/commands wrappers and the thin tag and delete commands.
- Test and code drift: tests exercise `get` and `claim` options (`--status`, `--assignee`, `--count`, `--tag` on claim) that the code does not have. The model follows the code.
- Schema.Subtree: the contract states that the set holds the seed and is closed under children, not that it is the least such set. Its body, `Closure.Reach`, is that least set.
- Export.GetExportTree: requires dependencies without a cycle (`Nestable`), which the cycle trigger guarantees. The model builds the todo tree as nested values. The source links shared node objects by reference and does not loop. On a dependency cycle it would return a graph with a loop, and rendering it (`renderTodoMarkdown` in packages/cli/src/export/command.ts, or the JSON5 output) would then fail. Similarly, the source's `sortTagTree` starts from the roots, so tags on a parent cycle are never reached and are silently left out; the model's `Buildable` requires rule out that case.
- TagForest.Forest, TagForest.GetTagSummary and the other tree builders require parent pointers without a cycle (`Buildable`), which the tag cycle trigger guarantees.
- DashServer.DashboardTagTree: requires the rows' parent pointers to have no cycle, which the tag cycle trigger guarantees. On a cycle the source would still stop: `sortNodes` starts from the roots, so tags on the cycle are never reached and are silently missing from the tree. The model does not describe that case.
- Markdown.MarkdownLines, Markdown.ExportLines and the other line counts: they assume descriptions without a newline, since a description with one renders as several lines.
- TodoGraph.ComputeLevels: the "one level past each predecessor" bound is stated only for distinct ids and kept dependencies without a cycle. The todos on a cycle are never taken from the queue; there the model proves only that the loop stops and that levels are at least 0.
- TodoGraph.LaneTypeOfTodo: the untagged colour is stated one way only. A tag whose lane segment is named `untagged` gets the untagged colour as well, as in the source.
- DashServer.CreateDashboardTag: requires the store's tag invariants (`Tags.CanWalk`: unique sibling names, rows keyed by id, fresh id counter). The database keeps these at all times.

## Findings

| source | as written | input that shows it | evidently intended | confidence | as-written member | corrected member |
|---|---|---|---|---|---|---|
| packages/web/src/server/dashboard.ts:318-334 | `setDashboardTodoPredecessors` deletes the todo's dependency rows, then inserts the new ones in a second statement, with no transaction around the two. When the insert is rejected, the deletion stays. | Todos 1, 2, 3 where 2 waits for 1 and 3 waits for 2. Ask todo 2 to wait for 1 and 3: the edge from 3 closes a cycle, so the insert fails, and todo 2 no longer waits for 1. | All or nothing, as `replaceTodoPredecessors` does inside a transaction (src/db/queries/dependencies.ts:14-22). A rejected list leaves the old predecessors. | not executed | DashServer.SetPredecessorsAsWritten (counterexample: DashServer.AsWrittenCounterexample) | DashServer.SetDashboardTodoPredecessors (DashServer.CorrectedCounterexample) |
