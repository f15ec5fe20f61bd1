/** The tag hierarchy: path normalisation, resolving a path to a tag,
    creating a path on demand, deleting a tag with its subtree, and moving a
    tag under a new parent. */
module Tags {
  import opened Wrappers
  import opened Text
  import opened Closure
  import opened Schema

  // ---------------------------------------------------------------------------
  // normalizeTagPath

  const EmptySegmentError := "Tag path must not contain empty segments"
  const SegmentCharsError := "Tag path segments must be lowercase alphanumeric"

  function TrimAll(xs: seq<string>): (r: seq<string>)
    ensures |r| == |xs| && forall i :: 0 <= i < |r| ==> r[i] == Trim(xs[i])
  {
    seq(|xs|, i requires 0 <= i < |xs| => Trim(xs[i]))
  }

  function LowerAll(xs: seq<string>): (r: seq<string>)
    ensures |r| == |xs| && forall i :: 0 <= i < |r| ==> r[i] == Lower(xs[i])
  {
    seq(|xs|, i requires 0 <= i < |xs| => Lower(xs[i]))
  }

  /** A normalised path: at least one segment, each `[a-z0-9]+`. */
  predicate IsTagPath(segs: seq<string>) {
    |segs| >= 1 && forall i :: 0 <= i < |segs| ==> IsAlnumWord(segs[i])
  }

  predicate NoEmpty(xs: seq<string>) {
    forall i :: 0 <= i < |xs| ==> xs[i] != ""
  }

  predicate AllWords(xs: seq<string>) {
    forall i :: 0 <= i < |xs| ==> IsAlnumWord(xs[i])
  }

  /** The checks of `normalizeTagPath` on the split segments. */
  function NormalizeSegments(parts: seq<string>): (r: Result<seq<string>>)
    ensures r.Ok? <==> NoEmpty(TrimAll(parts)) && AllWords(LowerAll(TrimAll(parts)))
    ensures r.Ok? ==> r.value == LowerAll(TrimAll(parts))
    ensures r == Err(EmptySegmentError) <==> !NoEmpty(TrimAll(parts))
    ensures r.Err? ==> r.message == EmptySegmentError || r.message == SegmentCharsError
  {
    var segments := TrimAll(parts);
    if !NoEmpty(segments) then Err(EmptySegmentError)
    else
      var normalized := LowerAll(segments);
      if !AllWords(normalized) then Err(SegmentCharsError)
      else Ok(normalized)
  }

  /** `normalizeTagPath`: split on `/`, trim each segment, reject an empty
      one, lower-case, reject one outside `[a-z0-9]+`. The result has one
      segment per `/`-separated part of the input. */
  function NormalizeTagPath(path: string): (r: Result<seq<string>>)
    ensures r.Ok? ==> IsTagPath(r.value) && r.value == LowerAll(TrimAll(Split(path, '/')))
    ensures r == Err(EmptySegmentError) <==> !NoEmpty(TrimAll(Split(path, '/')))
    ensures r == Err(SegmentCharsError) <==>
      NoEmpty(TrimAll(Split(path, '/'))) && !AllWords(LowerAll(TrimAll(Split(path, '/'))))
  {
    NormalizeSegments(Split(path, '/'))
  }

  /** Trimming and lower-casing leave words unchanged. */
  lemma {:induction false} NormalizeWords(segs: seq<string>)
    requires AllWords(segs)
    ensures TrimAll(segs) == segs && LowerAll(segs) == segs
  {
    if segs != [] {
      TrimOfWord(segs[0]);
      LowerOfWord(segs[0]);
      assert AllWords(segs[1..]);
      NormalizeWords(segs[1..]);
    }
  }

  /** A normalised path joined with `/` normalises to itself. */
  lemma NormalizeJoined(segs: seq<string>)
    requires IsTagPath(segs)
    ensures NormalizeTagPath(Join(segs, "/")) == Ok(segs)
  {
    forall i | 0 <= i < |segs| ensures '/' !in segs[i] {
      WordLacks(segs[i], '/');
    }
    SplitJoin(segs, '/');
    assert Split(Join(segs, "/"), '/') == segs;
    NormalizeWords(segs);
    assert NoEmpty(segs);
  }

  // ---------------------------------------------------------------------------
  // Lookup by (name, parent)

  /** `findTagByNameAndParent`. The unique indexes allow at most one match. */
  function FindTag(tags: map<int, TagRow>, name: string, parent: Option<int>): (r: Option<int>)
    requires UniqueTagNames(tags)
    ensures r.Some? ==> r.value in tags && tags[r.value].name == name && tags[r.value].parentId == parent
    ensures r.None? ==> forall k :: k in tags ==> !(tags[k].name == name && tags[k].parentId == parent)
  {
    if exists k :: k in tags && tags[k].name == name && tags[k].parentId == parent then
      var k :| k in tags && tags[k].name == name && tags[k].parentId == parent;
      Some(k)
    else None
  }

  /** `small` is `large` restricted to some of its keys. */
  predicate Extends(small: map<int, TagRow>, large: map<int, TagRow>) {
    forall k :: k in small ==> k in large && large[k] == small[k]
  }

  /** The one tag matching is what the lookup finds. */
  lemma FindUnique(tags: map<int, TagRow>, name: string, parent: Option<int>, k: int)
    requires UniqueTagNames(tags)
    requires k in tags && tags[k].name == name && tags[k].parentId == parent
    ensures FindTag(tags, name, parent) == Some(k)
  {
  }

  /** A match found stays the match when tags are added. */
  lemma FindStable(small: map<int, TagRow>, large: map<int, TagRow>, name: string, parent: Option<int>)
    requires UniqueTagNames(small) && UniqueTagNames(large) && Extends(small, large)
    requires FindTag(small, name, parent).Some?
    ensures FindTag(large, name, parent) == FindTag(small, name, parent)
  {
  }

  /** Walks the segments from `parent` down, `None` at the first one missing. */
  function ResolveFrom(tags: map<int, TagRow>, segs: seq<string>, parent: Option<int>): (r: Option<int>)
    requires UniqueTagNames(tags) && |segs| >= 1
    ensures r.Some? ==> r.value in tags && tags[r.value].name == segs[|segs| - 1]
    decreases |segs|
  {
    match FindTag(tags, segs[0], parent)
    case None => None
    case Some(k) => if |segs| == 1 then Some(k) else ResolveFrom(tags, segs[1..], Some(k))
  }

  /** `resolveTagPath`: the tag at the end of the path, `None` when a
      segment is missing; it only reads. */
  function ResolveTagPath(db: Db, path: string): (r: Result<Option<TagRow>>)
    requires UniqueTagNames(db.tags) && TagsKeyedById(db.tags)
    ensures r.Err? <==> NormalizeTagPath(path).Err?
    ensures r.Err? ==> r == Err(NormalizeTagPath(path).message)
    ensures r.Ok? ==> (r.value.Some? <==> ResolveFrom(db.tags, NormalizeTagPath(path).value, None).Some?)
    ensures r.Ok? && r.value.Some? ==>
      r.value.value.id in db.tags && db.tags[r.value.value.id] == r.value.value &&
      r.value.value.name == NormalizeTagPath(path).value[|NormalizeTagPath(path).value| - 1]
  {
    var segs :- NormalizeTagPath(path);
    match ResolveFrom(db.tags, segs, None)
    case None => Ok(None)
    case Some(k) => Ok(Some(db.tags[k]))
  }

  // ---------------------------------------------------------------------------
  // ensureTagPath

  /** Every tag id lies below the AUTOINCREMENT counter. */
  predicate TagIdsFresh(db: Db) {
    forall k :: k in db.tags ==> k < db.nextTagId
  }

  /** Each tag is stored under its own id. */
  predicate TagsKeyedById(tags: map<int, TagRow>) {
    forall k :: k in tags ==> tags[k].id == k
  }

  /** What the path operations rely on: the unique indexes, ids as keys,
      and a counter above every id. */
  predicate CanWalk(db: Db) {
    UniqueTagNames(db.tags) && TagsKeyedById(db.tags) && TagIdsFresh(db)
  }

  /** `createTag(name, parent)` after the lookup found nothing. */
  function CreateTag(db: Db, name: string, parent: Option<int>): (r: (Db, int))
    requires CanWalk(db) && FindTag(db.tags, name, parent).None?
    ensures r.1 == db.nextTagId && r.1 !in db.tags
    ensures r.0 == db.(tags := db.tags[r.1 := TagRow(r.1, name, parent)], nextTagId := db.nextTagId + 1)
    ensures CanWalk(r.0) && Extends(db.tags, r.0.tags)
    ensures FindTag(r.0.tags, name, parent) == Some(r.1)
  {
    var id := db.nextTagId;
    var db' := db.(tags := db.tags[id := TagRow(id, name, parent)], nextTagId := db.nextTagId + 1);
    assert UniqueTagNames(db'.tags);
    FindUnique(db'.tags, name, parent, id);
    (db', id)
  }

  /** One segment: reuse the tag found, or create it. */
  function StepSegment(db: Db, name: string, parent: Option<int>): (r: (Db, int))
    requires CanWalk(db)
    ensures CanWalk(r.0) && Extends(db.tags, r.0.tags)
    ensures r.0.todos == db.todos && r.0.edges == db.edges && r.0.nextTodoId == db.nextTodoId
    ensures FindTag(r.0.tags, name, parent) == Some(r.1)
    ensures FindTag(db.tags, name, parent).Some? ==> r.0 == db
    ensures NewTagsBetween(db, r.0) && r.0.nextTagId <= db.nextTagId + 1
    ensures forall k :: k in r.0.tags && k !in db.tags ==> k == r.1
  {
    match FindTag(db.tags, name, parent)
    case Some(k) => (db, k)
    case None => CreateTag(db, name, parent)
  }

  /** The tags added between two stores are exactly those with the ids the
      AUTOINCREMENT counter handed out in between. */
  predicate NewTagsBetween(db: Db, db': Db) {
    db.nextTagId <= db'.nextTagId &&
    (forall k :: k in db'.tags && k !in db.tags ==> db.nextTagId <= k < db'.nextTagId) &&
    (forall k :: db.nextTagId <= k < db'.nextTagId ==> k in db'.tags && k !in db.tags)
  }

  /** The creation loop of `ensureTagPath`. It creates at most one tag per
      segment, and every tag it creates lies on the path to the tag it
      returns. */
  function Walk(db: Db, segs: seq<string>, parent: Option<int>): (r: (Db, int))
    requires CanWalk(db) && |segs| >= 1
    ensures CanWalk(r.0) && Extends(db.tags, r.0.tags)
    ensures r.0.todos == db.todos && r.0.edges == db.edges && r.0.nextTodoId == db.nextTodoId
    ensures ResolveFrom(r.0.tags, segs, parent) == Some(r.1)
    ensures NewTagsBetween(db, r.0) && r.0.nextTagId <= db.nextTagId + |segs|
    ensures forall k :: k in r.0.tags && k !in db.tags ==> r.1 in Subtree(r.0.tags, k)
    decreases |segs|
  {
    var (db1, id) := StepSegment(db, segs[0], parent);
    if |segs| == 1 then (db1, id)
    else
      var (db2, last) := Walk(db1, segs[1..], Some(id));
      FindStable(db1.tags, db2.tags, segs[0], parent);
      ResolvedBelow(db2.tags, segs[1..], id);
      (db2, last)
  }

  /** A path resolved from below a tag ends in that tag's subtree. */
  lemma {:induction false} ResolvedBelow(tags: map<int, TagRow>, segs: seq<string>, p: int)
    requires UniqueTagNames(tags) && |segs| >= 1 && ResolveFrom(tags, segs, Some(p)).Some?
    ensures ResolveFrom(tags, segs, Some(p)).value in Subtree(tags, p)
  {
    var k := FindTag(tags, segs[0], Some(p)).value;
    ReachStep(ParentRel(tags), p, k);
    if |segs| > 1 {
      ResolvedBelow(tags, segs[1..], k);
      ReachTrans(ParentRel(tags), p, k);
    }
  }

  /** `ensureTagPath`: the tag at the end of the path, creating the missing
      segments under the last one found. Only tags are added: existing tags,
      todos and dependencies stay as they were; at most one tag is added per
      segment, with the next counter ids, and each lies on the path to the
      tag returned. */
  function EnsureTagPath(db: Db, path: string): (r: Result<(Db, TagRow)>)
    requires CanWalk(db)
    ensures r.Err? <==> NormalizeTagPath(path).Err?
    ensures r.Err? ==> r == Err(NormalizeTagPath(path).message)
    ensures r.Ok? ==>
      var (db', t) := r.value;
      CanWalk(db') && Extends(db.tags, db'.tags) &&
      db'.todos == db.todos && db'.edges == db.edges && db'.nextTodoId == db.nextTodoId &&
      t.id in db'.tags && db'.tags[t.id] == t
    ensures r.Ok? ==>
      NewTagsBetween(db, r.value.0) && r.value.0.nextTagId <= db.nextTagId + |NormalizeTagPath(path).value|
    ensures r.Ok? ==> forall k :: k in r.value.0.tags && k !in db.tags ==> r.value.1.id in Subtree(r.value.0.tags, k)
  {
    var segs :- NormalizeTagPath(path);
    match ResolveFrom(db.tags, segs, None)
    case Some(k) => Ok((db, db.tags[k]))
    case None =>
      var (db', k) := Walk(db, segs, None);
      Ok((db', db'.tags[k]))
  }

  /** `ensureTagPath` creates at most one tag per segment of the path. */
  lemma EnsureCreatesAtMostPath(db: Db, path: string)
    requires CanWalk(db) && EnsureTagPath(db, path).Ok?
    ensures |EnsureTagPath(db, path).value.0.tags.Keys - db.tags.Keys| <= |NormalizeTagPath(path).value|
  {
    var db' := EnsureTagPath(db, path).value.0;
    IdsBelowCount(db'.tags.Keys - db.tags.Keys, db.nextTagId, db'.nextTagId);
  }

  /** A set of integers from `a` up to `b` has at most `b - a` elements. */
  lemma {:induction false} IdsBelowCount(s: set<int>, a: int, b: int)
    requires a <= b && forall k :: k in s ==> a <= k < b
    ensures |s| <= b - a
    decreases b - a
  {
    if a < b {
      IdsBelowCount(s - {b - 1}, a, b - 1);
    } else if s != {} {
      NonEmpty(s);
      assert false;
    }
  }

  /** After `ensureTagPath`, resolving the same path finds the tag returned. */
  lemma EnsureThenResolve(db: Db, path: string)
    requires CanWalk(db) && EnsureTagPath(db, path).Ok?
    ensures
      var (db', t) := EnsureTagPath(db, path).value;
      ResolveTagPath(db', path).Ok? && ResolveTagPath(db', path).value.Some? &&
      ResolveTagPath(db', path).value.value.id == t.id
  {
  }

  /** On a path that already resolves, `ensureTagPath` returns that tag and
      writes nothing. */
  lemma EnsureExistingIsNoop(db: Db, path: string)
    requires CanWalk(db)
    requires ResolveTagPath(db, path).Ok? && ResolveTagPath(db, path).value.Some?
    ensures EnsureTagPath(db, path).Ok?
    ensures EnsureTagPath(db, path).value.0 == db
    ensures EnsureTagPath(db, path).value.1.id == ResolveTagPath(db, path).value.value.id
  {
  }

  /** Ensuring a path twice gives the same tag, and the second call writes
      nothing. */
  lemma EnsureIdempotent(db: Db, path: string)
    requires CanWalk(db) && EnsureTagPath(db, path).Ok?
    ensures
      var (db1, t1) := EnsureTagPath(db, path).value;
      EnsureTagPath(db1, path).Ok? && EnsureTagPath(db1, path).value.0 == db1 &&
      EnsureTagPath(db1, path).value.1.id == t1.id
  {
    EnsureThenResolve(db, path);
    var (db1, t1) := EnsureTagPath(db, path).value;
    EnsureExistingIsNoop(db1, path);
  }

  // ---------------------------------------------------------------------------
  // Constraints kept by ensureTagPath

  /** The parent pointers after a tag with a new id is added. */
  lemma ParentRelAdd(tags: map<int, TagRow>, id: int, row: TagRow)
    requires id !in tags
    ensures ParentRel(tags[id := row]) ==
      ParentRel(tags) + (if row.parentId.Some? then {(row.parentId.value, id)} else {})
  {
  }

  /** A node with no outgoing pair reaches only itself. */
  lemma ReachLeaf(rel: Rel, x: int)
    requires forall p :: p in rel ==> p.0 != x
    ensures Reach(rel, x) == {x}
  {
    ReachLeast(rel, x, {x});
  }

  /** Adding a leaf tag with a valid name under an existing parent (or at the
      root), with a name unused among its siblings, keeps the tag table valid. */
  lemma CreateKeepsTagsValid(db: Db, name: string, parent: Option<int>)
    requires TagsValid(db.tags, db.nextTagId) && IsAlnumWord(name)
    requires parent.Some? ==> parent.value in db.tags
    requires FindTag(db.tags, name, parent).None?
    ensures TagsValid(CreateTag(db, name, parent).0.tags, CreateTag(db, name, parent).0.nextTagId)
  {
    var (db', id) := CreateTag(db, name, parent);
    LeafKeepsAcyclic(db.tags, id, TagRow(id, name, parent));
    assert forall k :: k in db'.tags ==> ValidTagName(db'.tags[k].name);
    assert forall k :: k in db'.tags && db'.tags[k].parentId.Some? ==> db'.tags[k].parentId.value in db'.tags;
  }

  /** A new tag under a stored parent, or at the root, is a leaf of the
      hierarchy: it closes no cycle. */
  lemma LeafKeepsAcyclic(tags: map<int, TagRow>, id: int, row: TagRow)
    requires id !in tags && Acyclic(ParentRel(tags))
    requires forall k :: k in tags && tags[k].parentId.Some? ==> tags[k].parentId.value in tags
    requires row.parentId.Some? ==> row.parentId.value in tags
    ensures Acyclic(ParentRel(tags[id := row]))
  {
    var rel := ParentRel(tags);
    ParentRelAdd(tags, id, row);
    if row.parentId.Some? {
      forall p | p in rel ensures p.0 != id {
      }
      ReachLeaf(rel, id);
      AddPairAcyclic(rel, row.parentId.value, id);
    } else {
      assert ParentRel(tags[id := row]) == rel;
    }
  }

  lemma {:induction false} WalkKeepsTagsValid(db: Db, segs: seq<string>, parent: Option<int>)
    requires CanWalk(db) && |segs| >= 1 && IsTagPath(segs)
    requires TagsValid(db.tags, db.nextTagId)
    requires parent.Some? ==> parent.value in db.tags
    ensures TagsValid(Walk(db, segs, parent).0.tags, Walk(db, segs, parent).0.nextTagId)
    decreases |segs|
  {
    var (db1, id) := StepSegment(db, segs[0], parent);
    if FindTag(db.tags, segs[0], parent).None? {
      CreateKeepsTagsValid(db, segs[0], parent);
    }
    if |segs| > 1 {
      assert IsTagPath(segs[1..]);
      WalkKeepsTagsValid(db1, segs[1..], Some(id));
    }
  }

  /** Adding tags keeps the todo table's references valid. */
  lemma TodosValidMoreTags(todos: map<int, TodoRow>, small: map<int, TagRow>, large: map<int, TagRow>, next: int)
    requires TodosValid(todos, small, next) && small.Keys <= large.Keys
    ensures TodosValid(todos, large, next)
  {
    forall k | k in todos && todos[k].tagId.Some? ensures todos[k].tagId.value in large {
      assert todos[k].tagId.value in small.Keys;
    }
  }

  /** Creating the missing tags of a path keeps every constraint of the store. */
  lemma WalkKeepsValid(db: Db, segs: seq<string>)
    requires Valid(db) && CanWalk(db) && |segs| >= 1 && IsTagPath(segs)
    ensures Valid(Walk(db, segs, None).0)
  {
    var db' := Walk(db, segs, None).0;
    WalkKeepsTagsValid(db, segs, None);
    assert Extends(db.tags, db'.tags);
    assert db.tags.Keys <= db'.tags.Keys by {
      forall k | k in db.tags ensures k in db'.tags {
        assert db.tags[k] == db.tags[k];
      }
    }
    TodosValidMoreTags(db.todos, db.tags, db'.tags, db.nextTodoId);
    assert TagsValid(db'.tags, db'.nextTagId);
    assert TodosValid(db'.todos, db'.tags, db'.nextTodoId);
    assert EdgesValid(db'.edges, db'.todos);
  }

  /** `ensureTagPath` keeps every constraint of the store. */
  lemma EnsureKeepsValid(db: Db, path: string)
    requires Valid(db) && CanWalk(db) && EnsureTagPath(db, path).Ok?
    ensures Valid(EnsureTagPath(db, path).value.0)
  {
    var segs := NormalizeTagPath(path).value;
    assert IsTagPath(segs) && |segs| >= 1;
    if ResolveFrom(db.tags, segs, None).None? {
      WalkKeepsValid(db, segs);
    }
  }

  // ---------------------------------------------------------------------------
  // deleteTag

  /** `deleteTag`: the tag and, through the cascading parent key, its whole
      subtree go; todos tagged in the subtree lose their tag (`set null`)
      but are kept. Returns the deleted row, `None` for an unknown id. */
  function DeleteTag(db: Db, id: int): (r: (Db, Option<TagRow>))
    ensures r.1.None? <==> id !in db.tags
    ensures r.1.None? ==> r.0 == db
    ensures r.1.Some? ==> r.1.value == db.tags[id]
    ensures r.1.Some? ==> forall k :: k in r.0.tags <==> k in db.tags && k !in Subtree(db.tags, id)
    ensures forall k :: k in r.0.tags ==> r.0.tags[k] == db.tags[k]
    ensures r.0.todos.Keys == db.todos.Keys && r.0.edges == db.edges
    ensures forall k :: k in r.0.todos ==>
      r.0.todos[k] == (if r.1.Some? && InSubtree(db.tags, db.todos[k].tagId, id)
                       then db.todos[k].(tagId := None) else db.todos[k])
    ensures r.0.nextTagId == db.nextTagId && r.0.nextTodoId == db.nextTodoId
  {
    if id !in db.tags then (db, None)
    else
      var gone := Subtree(db.tags, id);
      var tags' := map k | k in db.tags && k !in gone :: db.tags[k];
      var todos' := map k | k in db.todos ::
        if InSubtree(db.tags, db.todos[k].tagId, id) then db.todos[k].(tagId := None) else db.todos[k];
      (db.(tags := tags', todos := todos'), Some(db.tags[id]))
  }

  /** Deleting a tag keeps every constraint of the store. */
  lemma DeleteTagKeepsValid(db: Db, id: int)
    requires Valid(db)
    ensures Valid(DeleteTag(db, id).0)
  {
    var db' := DeleteTag(db, id).0;
    if id in db.tags {
      AcyclicSubset(ParentRel(db'.tags), ParentRel(db.tags));
      var gone := Subtree(db.tags, id);
      forall k | k in db'.tags && db'.tags[k].parentId.Some?
        ensures db'.tags[k].parentId.value in db'.tags
      {
        assert k !in gone;
      }
    }
  }

  // ---------------------------------------------------------------------------
  // Moving a tag

  /** Another tag under `parent` already has the name of tag `id`: moving
      `id` there breaks the sibling-name UNIQUE constraint. */
  predicate NameTakenUnder(tags: map<int, TagRow>, id: int, parent: Option<int>)
    requires id in tags
  {
    exists k :: k in tags && k != id && tags[k].parentId == parent && tags[k].name == tags[id].name
  }

  /** `updateTag(id, {parentId})`. An unknown id updates no row. The parent
      must exist, must not lie in the tag's own subtree (the cycle trigger),
      and must not already have a child of the same name. */
  function SetTagParent(db: Db, id: int, parent: Option<int>): (r: Result<Db>)
    ensures id !in db.tags ==> r == Ok(db)
    ensures id in db.tags ==>
      (r.Ok? <==> (parent.Some? ==> parent.value in db.tags && parent.value !in Subtree(db.tags, id)) &&
                  !NameTakenUnder(db.tags, id, parent))
    ensures id in db.tags && parent.Some? && parent.value !in db.tags ==> r == Err(ForeignKeyError)
    ensures id in db.tags && parent.Some? && parent.value in db.tags && parent.value in Subtree(db.tags, id) ==>
      r == Err(TagCycleError)
    ensures id in db.tags && (parent.Some? ==> parent.value in db.tags && parent.value !in Subtree(db.tags, id)) &&
            NameTakenUnder(db.tags, id, parent) ==>
      r == Err(UniqueError)
    ensures r.Ok? && id in db.tags ==>
      r.value == db.(tags := db.tags[id := db.tags[id].(parentId := parent)])
  {
    if id !in db.tags then Ok(db)
    else if parent.Some? && parent.value !in db.tags then Err(ForeignKeyError)
    else if parent.Some? && parent.value in Subtree(db.tags, id) then Err(TagCycleError)
    else if NameTakenUnder(db.tags, id, parent) then Err(UniqueError)
    else Ok(db.(tags := db.tags[id := db.tags[id].(parentId := parent)]))
  }

  /** The parent pointers after one tag's parent changes. */
  lemma ParentRelMove(tags: map<int, TagRow>, id: int, parent: Option<int>)
    requires id in tags
    ensures ParentRel(tags[id := tags[id].(parentId := parent)]) ==
      (ParentRel(tags) - (if tags[id].parentId.Some? then {(tags[id].parentId.value, id)} else {})) +
      (if parent.Some? then {(parent.value, id)} else {})
  {
  }

  /** Moving a tag outside its own subtree keeps the hierarchy acyclic. */
  lemma MoveKeepsAcyclic(tags: map<int, TagRow>, id: int, parent: Option<int>)
    requires id in tags && Acyclic(ParentRel(tags))
    requires parent.Some? ==> parent.value !in Subtree(tags, id)
    ensures Acyclic(ParentRel(tags[id := tags[id].(parentId := parent)]))
  {
    var rel := ParentRel(tags);
    var before := if tags[id].parentId.Some? then {(tags[id].parentId.value, id)} else {};
    ParentRelMove(tags, id, parent);
    AcyclicSubset(rel - before, rel);
    if parent.Some? {
      ReachMono(rel - before, rel, id);
      AddPairAcyclic(rel - before, parent.value, id);
    }
  }

  /** Moving a tag keeps every constraint of the store. */
  lemma SetTagParentKeepsValid(db: Db, id: int, parent: Option<int>)
    requires Valid(db) && SetTagParent(db, id, parent).Ok?
    ensures Valid(SetTagParent(db, id, parent).value)
  {
    if id in db.tags {
      var tags' := db.tags[id := db.tags[id].(parentId := parent)];
      assert SetTagParent(db, id, parent).value == db.(tags := tags');
      MoveKeepsAcyclic(db.tags, id, parent);
      assert UniqueTagNames(tags');
      assert TagsValid(tags', db.nextTagId);
      TodosValidMoreTags(db.todos, db.tags, tags', db.nextTodoId);
    }
  }
}
