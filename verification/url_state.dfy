/** The dashboard's URL search state: reading it from raw query values and
    patching it. Numbers are JavaScript numbers, modelled as reals; NaN and
    the infinities, which the source never keeps, are left out. */
module UrlState {
  import opened Wrappers
  import opened Text
  import opened Numbers

  /** A raw search value as the router hands it over: missing, a string, a
      number, a boolean, or anything else (null, an object, an array). */
  datatype Raw = Absent | Str(text: string) | Num(number: real) | Bool(flag: bool) | Other

  /** The raw search record. */
  datatype Search = Search(
    view: Raw, tagId: Raw, untagged: Raw, q: Raw, status: Raw,
    blocked: Raw, tag: Raw, sortBy: Raw, sortDir: Raw, todoId: Raw)

  /** `DashboardUrlState`; an optional field is `None` when it is absent. */
  datatype UrlState = UrlState(
    view: string, tagId: Option<int>, untagged: Option<bool>, q: Option<string>,
    status: Option<string>, blocked: Option<string>, tag: Option<string>,
    sortBy: Option<string>, sortDir: Option<string>, todoId: Option<int>)

  const Views: seq<string> := ["list", "graph"]
  const Statuses: seq<string> := ["all", "todo", "in_progress", "completed"]
  const BlockedFilters: seq<string> := ["all", "blocked", "unblocked"]
  const SortKeys: seq<string> := ["id", "description", "status", "priority", "dueDate", "dependencies", "tag", "blocked"]
  const SortDirs: seq<string> := ["asc", "desc"]

  /** `parseNumber`: an integral number as it is; a string that is not
      blank goes through `Number()` (the parameter `toNumber`, `None` for
      NaN and the infinities) and counts when integral; anything else is
      undefined. */
  function ParseNumber(v: Raw, toNumber: string -> Option<real>): (r: Option<int>)
    ensures v.Num? ==> (r.Some? <==> IsInteger(v.number)) && (r.Some? ==> r.value as real == v.number)
    ensures v.Str? ==> (r.Some? <==> Trim(v.text) != [] && toNumber(v.text).Some? && IsInteger(toNumber(v.text).value))
    ensures v.Str? && r.Some? ==> r.value as real == toNumber(v.text).value
    ensures !v.Num? && !v.Str? ==> r.None?
  {
    match v
    case Num(x) => if IsInteger(x) then Some(x.Floor) else None
    case Str(s) =>
      if Trim(s) != [] then
        match toNumber(s)
        case Some(x) => if IsInteger(x) then Some(x.Floor) else None
        case None => None
      else None
    case _ => None
  }

  /** An integer written as a number reads back as itself. */
  lemma ParseNumberOfInt(n: int, toNumber: string -> Option<real>)
    ensures ParseNumber(Num(n as real), toNumber) == Some(n)
  {
  }

  /** `parseStringUnion`: the value when it is one of the allowed strings,
      otherwise undefined. */
  function ParseStringUnion(v: Raw, allowed: seq<string>): (r: Option<string>)
    ensures r.Some? <==> v.Str? && v.text in allowed
    ensures r.Some? ==> r.value == v.text && r.value in allowed
  {
    if v.Str? && v.text in allowed then Some(v.text) else None
  }

  /** `typeof value === 'string' ? value : undefined`. */
  function StringOrAbsent(v: Raw): (r: Option<string>)
    ensures r.Some? <==> v.Str?
    ensures r.Some? ==> r.value == v.text
  {
    if v.Str? then Some(v.text) else None
  }

  /** What every validated state satisfies: the enumerated fields hold one
      of their allowed strings, the view, status, blocked and untagged
      fields are always present. */
  predicate Validated(s: UrlState) {
    s.view in Views &&
    s.untagged.Some? &&
    s.status.Some? && s.status.value in Statuses &&
    s.blocked.Some? && s.blocked.value in BlockedFilters &&
    (s.sortBy.Some? ==> s.sortBy.value in SortKeys) &&
    (s.sortDir.Some? ==> s.sortDir.value in SortDirs)
  }

  /** `validateDashboardSearch`. */
  function ValidateSearch(search: Search, toNumber: string -> Option<real>): (r: UrlState)
    ensures Validated(r)
    ensures r.view == (if search.view.Str? && search.view.text in Views then search.view.text else "list")
    ensures r.status.value == (if search.status.Str? && search.status.text in Statuses then search.status.text else "all")
    ensures r.blocked.value == (if search.blocked.Str? && search.blocked.text in BlockedFilters then search.blocked.text else "all")
    ensures r.sortBy.Some? <==> search.sortBy.Str? && search.sortBy.text in SortKeys
    ensures r.sortDir.Some? <==> search.sortDir.Str? && search.sortDir.text in SortDirs
    ensures r.untagged.value <==> search.untagged in {Bool(true), Str("true"), Str("1")}
    ensures r.q.Some? <==> search.q.Str?
    ensures r.tag.Some? <==> search.tag.Str?
    ensures r.tagId == ParseNumber(search.tagId, toNumber) && r.todoId == ParseNumber(search.todoId, toNumber)
  {
    UrlState(
      view := ParseStringUnion(search.view, Views).GetOr("list"),
      tagId := ParseNumber(search.tagId, toNumber),
      untagged := Some(search.untagged == Bool(true) || search.untagged == Str("true") || search.untagged == Str("1")),
      q := StringOrAbsent(search.q),
      status := Some(ParseStringUnion(search.status, Statuses).GetOr("all")),
      blocked := Some(ParseStringUnion(search.blocked, BlockedFilters).GetOr("all")),
      tag := StringOrAbsent(search.tag),
      sortBy := ParseStringUnion(search.sortBy, SortKeys),
      sortDir := ParseStringUnion(search.sortDir, SortDirs),
      todoId := ParseNumber(search.todoId, toNumber))
  }

  function RawInt(v: Option<int>): Raw {
    if v.Some? then Num(v.value as real) else Absent
  }

  function RawString(v: Option<string>): Raw {
    if v.Some? then Str(v.value) else Absent
  }

  /** The search record a state is written to the URL as. */
  function ToSearch(s: UrlState): Search
    requires s.untagged.Some? && s.status.Some? && s.blocked.Some?
  {
    Search(Str(s.view), RawInt(s.tagId), Bool(s.untagged.value), RawString(s.q), Str(s.status.value),
           Str(s.blocked.value), RawString(s.tag), RawString(s.sortBy), RawString(s.sortDir), RawInt(s.todoId))
  }

  /** Reading back a validated state written to the URL gives it back. */
  lemma ValidateRoundTrip(s: UrlState, toNumber: string -> Option<real>)
    requires Validated(s)
    ensures ValidateSearch(ToSearch(s), toNumber) == s
  {
  }

  /** Validating is a projection: validating the written form of a
      validated search changes nothing. */
  lemma ValidateIdempotent(search: Search, toNumber: string -> Option<real>)
    ensures var s := ValidateSearch(search, toNumber);
      ValidateSearch(ToSearch(s), toNumber) == s
  {
    ValidateRoundTrip(ValidateSearch(search, toNumber), toNumber);
  }

  // ---------------------------------------------------------------------------
  // Patching

  /** `Partial<DashboardUrlState>`: `None` leaves a field alone; `Some(v)`
      sets it, `Some(None)` to an explicit undefined. */
  datatype Patch = Patch(
    view: Option<string>, tagId: Option<Option<int>>, untagged: Option<Option<bool>>,
    q: Option<Option<string>>, status: Option<Option<string>>, blocked: Option<Option<string>>,
    tag: Option<Option<string>>, sortBy: Option<Option<string>>, sortDir: Option<Option<string>>,
    todoId: Option<Option<int>>)

  const NoPatch := Patch(None, None, None, None, None, None, None, None, None, None)

  /** `{ ...previous, ...patch }`. */
  function Merge(prev: UrlState, patch: Patch): (r: UrlState)
    ensures patch == NoPatch ==> r == prev
  {
    UrlState(
      view := patch.view.GetOr(prev.view),
      tagId := patch.tagId.GetOr(prev.tagId),
      untagged := patch.untagged.GetOr(prev.untagged),
      q := patch.q.GetOr(prev.q),
      status := patch.status.GetOr(prev.status),
      blocked := patch.blocked.GetOr(prev.blocked),
      tag := patch.tag.GetOr(prev.tag),
      sortBy := patch.sortBy.GetOr(prev.sortBy),
      sortDir := patch.sortDir.GetOr(prev.sortDir),
      todoId := patch.todoId.GetOr(prev.todoId))
  }

  /** JavaScript truthiness of the optional fields. */
  function Truthy<T(==)>(v: Option<T>, falsy: T): Option<T> {
    if v == Some(falsy) then None else v
  }

  /** A state with none of the values the patch drops: no empty search or
      tag text, no "all" filter, no empty sort, no id 0, no `false` flag. */
  predicate Compact(s: UrlState) {
    s.q != Some("") && s.tag != Some("") && s.status != Some("all") && s.blocked != Some("all") &&
    s.sortBy != Some("") && s.sortDir != Some("") && s.todoId != Some(0) && s.tagId != Some(0) &&
    s.untagged != Some(false)
  }

  /** `a` is `b` with some of the dropped values removed. */
  predicate SameUpToDefaults(a: UrlState, b: UrlState) {
    a.view == b.view &&
    a.q in {b.q, None} && (a.q != b.q ==> b.q == Some("")) &&
    a.tag in {b.tag, None} && (a.tag != b.tag ==> b.tag == Some("")) &&
    a.status in {b.status, None} && (a.status != b.status ==> b.status == Some("all")) &&
    a.blocked in {b.blocked, None} && (a.blocked != b.blocked ==> b.blocked == Some("all")) &&
    a.sortBy in {b.sortBy, None} && (a.sortBy != b.sortBy ==> b.sortBy == Some("")) &&
    a.sortDir in {b.sortDir, None} && (a.sortDir != b.sortDir ==> b.sortDir == Some("")) &&
    a.todoId in {b.todoId, None} && (a.todoId != b.todoId ==> b.todoId == Some(0)) &&
    a.tagId in {b.tagId, None} && (a.tagId != b.tagId ==> b.tagId == Some(0)) &&
    a.untagged in {b.untagged, None} && (a.untagged != b.untagged ==> b.untagged == Some(false))
  }

  /** `applyDashboardSearchPatch`: the patch overrides the previous state,
      then every empty or default value is dropped. */
  function ApplyPatch(prev: UrlState, patch: Patch): (r: UrlState)
    ensures Compact(r)
    ensures SameUpToDefaults(r, Merge(prev, patch))
  {
    var next := Merge(prev, patch);
    next.(
      q := Truthy(next.q, ""),
      tag := Truthy(next.tag, ""),
      status := Truthy(next.status, "all"),
      blocked := Truthy(next.blocked, "all"),
      sortBy := Truthy(next.sortBy, ""),
      sortDir := Truthy(next.sortDir, ""),
      todoId := Truthy(next.todoId, 0),
      tagId := Truthy(next.tagId, 0),
      untagged := Truthy(next.untagged, false))
  }

  /** A value the patch sets, and that is not a dropped default, is kept. */
  lemma PatchOverrides(prev: UrlState, patch: Patch)
    ensures var r := ApplyPatch(prev, patch);
      (patch.view.Some? ==> r.view == patch.view.value) &&
      (patch.q.Some? && patch.q.value != Some("") ==> r.q == patch.q.value) &&
      (patch.tag.Some? && patch.tag.value != Some("") ==> r.tag == patch.tag.value) &&
      (patch.status.Some? && patch.status.value != Some("all") ==> r.status == patch.status.value) &&
      (patch.blocked.Some? && patch.blocked.value != Some("all") ==> r.blocked == patch.blocked.value) &&
      (patch.sortBy.Some? && patch.sortBy.value != Some("") ==> r.sortBy == patch.sortBy.value) &&
      (patch.sortDir.Some? && patch.sortDir.value != Some("") ==> r.sortDir == patch.sortDir.value) &&
      (patch.todoId.Some? && patch.todoId.value != Some(0) ==> r.todoId == patch.todoId.value) &&
      (patch.tagId.Some? && patch.tagId.value != Some(0) ==> r.tagId == patch.tagId.value) &&
      (patch.untagged.Some? && patch.untagged.value != Some(false) ==> r.untagged == patch.untagged.value)
  {
  }

  /** An empty patch changes nothing in a compact state; in particular
      applying it to a patched state gives that state back. */
  lemma EmptyPatchKeepsCompact(s: UrlState)
    requires Compact(s)
    ensures ApplyPatch(s, NoPatch) == s
  {
  }

  lemma PatchIdempotent(prev: UrlState, patch: Patch)
    ensures ApplyPatch(ApplyPatch(prev, patch), NoPatch) == ApplyPatch(prev, patch)
  {
    EmptyPatchKeepsCompact(ApplyPatch(prev, patch));
  }
}
