/** The dashboard's tag-tree helpers: the set of tag ids a selected tag
    covers, filtering todos by that set, and the slash-separated path of
    every tag, both as a map and as a preorder listing. The tree is the
    one the server sends, which is the tag forest of `TagForest`. */
module TagScope {
  import opened Wrappers
  import opened Text
  import opened Closure
  import opened Sorting
  import opened Schema
  import opened Lists
  import opened TagForest

  // ---------------------------------------------------------------------------
  // Scope of a selected tag

  /** `findTagNodeById`: depth first, a node before its children and its
      children before its later siblings. */
  function FindNode(ns: seq<TagNode>, target: int): (r: Option<TagNode>)
    ensures r.Some? ==> r.value.id == target
    decreases ns
  {
    if ns == [] then None
    else if ns[0].id == target then Some(ns[0])
    else
      match FindNode(ns[0].children, target)
      case Some(n) => Some(n)
      case None => FindNode(ns[1..], target)
  }

  /** The search finds a node exactly when the id occurs in the tree. */
  lemma {:induction false} FindNodeFinds(ns: seq<TagNode>, target: int)
    ensures FindNode(ns, target).Some? <==> target in PreorderAll(ns)
    decreases ns
  {
    if ns != [] {
      FindNodeFinds(ns[0].children, target);
      FindNodeFinds(ns[1..], target);
    }
  }

  /** In a built forest the node found is the built node of that tag. */
  lemma {:induction false} FindNodeBuilt(tags: map<int, TagRow>, ns: seq<TagNode>, target: int)
    requires forall i :: 0 <= i < |ns| ==> Built(tags, ns[i])
    ensures FindNode(ns, target).Some? ==> Built(tags, FindNode(ns, target).value)
    decreases ns
  {
    if ns != [] && ns[0].id != target {
      ChildFacts(tags, ns[0].id);
      FindNodeBuilt(tags, ns[0].children, target);
      FindNodeBuilt(tags, ns[1..], target);
    }
  }

  /** `getTagScopeIds(tree, selected)`: no scope without a selection, the
      empty scope for an id the tree does not hold, and otherwise the ids of
      the selected node's subtree (what `collectTagIds` gathers). */
  function TagScopeIds(tree: seq<TagNode>, selected: Option<int>): (r: Option<set<int>>)
    ensures r.None? <==> selected.None?
    ensures selected.Some? && r.value != {} ==> selected.value in r.value
  {
    if selected.None? then None
    else
      match FindNode(tree, selected.value)
      case None => Some({})
      case Some(n) => Some(Elements(Preorder(n)))
  }

  /** On the tag forest of a store, the scope of a tag is its subtree, and
      the scope of an unknown id is empty. */
  lemma ScopeIsSubtree(tags: map<int, TagRow>, t: int)
    requires Buildable(tags)
    ensures TagScopeIds(Forest(tags), Some(t)) == Some(if t in tags then Subtree(tags, t) else {})
  {
    var f := Forest(tags);
    ForestExactlyOnce(tags);
    ForestFacts(tags);
    FindNodeFinds(f, t);
    FindNodeBuilt(tags, f, t);
    if t in tags {
      assert t in Elements(PreorderAll(f));
      NodeCovers(tags, t);
    } else {
      assert t !in Elements(PreorderAll(f));
    }
  }

  // ---------------------------------------------------------------------------
  // Filtering todos by scope

  predicate InScope(scope: set<int>, t: TodoRow) {
    t.tagId.Some? && t.tagId.value in scope
  }

  function Keep(todos: seq<TodoRow>, scope: set<int>): (r: seq<TodoRow>)
    ensures |r| <= |todos|
    ensures forall t :: t in r <==> t in todos && InScope(scope, t)
  {
    if todos == [] then []
    else if InScope(scope, todos[0]) then [todos[0]] + Keep(todos[1..], scope)
    else Keep(todos[1..], scope)
  }

  /** `filterTodosByTagScope`: no scope keeps every todo; a scope keeps the
      todos whose tag is in it, a todo without tag never. */
  function FilterTodosByTagScope(todos: seq<TodoRow>, scope: Option<set<int>>): (r: seq<TodoRow>)
    ensures scope.None? ==> r == todos
    ensures scope.Some? ==> forall t :: t in r <==> t in todos && InScope(scope.value, t)
  {
    if scope.None? then todos else Keep(todos, scope.value)
  }

  /** Filtering keeps the order: it works on each part of a list alone. */
  lemma {:induction false} FilterKeepsOrder(a: seq<TodoRow>, b: seq<TodoRow>, scope: Option<set<int>>)
    ensures FilterTodosByTagScope(a + b, scope) == FilterTodosByTagScope(a, scope) + FilterTodosByTagScope(b, scope)
    decreases |a|
  {
    if a == [] {
      assert a + b == b;
    } else if scope.Some? {
      assert (a + b)[0] == a[0];
      assert (a + b)[1..] == a[1..] + b;
      FilterKeepsOrder(a[1..], b, scope);
    }
  }

  /** Selecting a tag of the store keeps exactly the todos the subtree
      condition of the queries accepts. */
  lemma SelectedTagFilter(tags: map<int, TagRow>, todos: seq<TodoRow>, t: int)
    requires Buildable(tags) && t in tags
    ensures forall x :: x in FilterTodosByTagScope(todos, TagScopeIds(Forest(tags), Some(t))) <==>
      x in todos && InSubtree(tags, x.tagId, t)
  {
    ScopeIsSubtree(tags, t);
  }

  // ---------------------------------------------------------------------------
  // Tag paths

  datatype PathEntry = PathEntry(id: int, path: string, name: string)

  /** The path of a tag named `name` below the tags named `prefix`. */
  function PathOf(prefix: seq<string>, name: string): string {
    Join(prefix + [name], "/")
  }

  /** A root's path is its name; a child's path is its parent's path, a
      slash and its name. */
  lemma PathExtends(prefix: seq<string>, parent: string, name: string)
    ensures PathOf([], name) == name
    ensures PathOf(prefix + [parent], name) == PathOf(prefix, parent) + "/" + name
  {
    assert [] + [name] == [name];
    JoinConcat(prefix + [parent], [name], "/");
  }

  /** The recursive `visit` of `buildTagPathMap`: every node sets its path,
      then its children are visited, then its later siblings. */
  function Visit(m: map<int, string>, ns: seq<TagNode>, prefix: seq<string>): (r: map<int, string>)
    ensures r.Keys == m.Keys + Elements(PreorderAll(ns))
    decreases ns
  {
    if ns == [] then m
    else
      var path := prefix + [ns[0].name];
      var inner := Visit(m[ns[0].id := Join(path, "/")], ns[0].children, path);
      var r := Visit(inner, ns[1..], prefix);
      ElementsConcat([ns[0].id], PreorderAll(ns[0].children));
      ElementsConcat(Preorder(ns[0]), PreorderAll(ns[1..]));
      r
  }

  /** `buildTagPathMap(tree)`: a path for every tag of the tree. */
  function BuildTagPathMap(tree: seq<TagNode>): (r: map<int, string>)
    ensures r.Keys == Elements(PreorderAll(tree))
  {
    Visit(map[], tree, [])
  }

  /** `flattenTagTree(tree, prefix)`: each node, then its subtree, with
      the path from the top. */
  function Flatten(ns: seq<TagNode>, prefix: seq<string>): (r: seq<PathEntry>)
    ensures |r| == |PreorderAll(ns)|
    ensures forall k :: 0 <= k < |r| ==> r[k].id == PreorderAll(ns)[k]
    decreases ns
  {
    if ns == [] then []
    else
      var path := prefix + [ns[0].name];
      [PathEntry(ns[0].id, Join(path, "/"), ns[0].name)] + Flatten(ns[0].children, path) + Flatten(ns[1..], prefix)
  }

  /** Setting the entries' paths one after the other. */
  function Apply(m: map<int, string>, es: seq<PathEntry>): (r: map<int, string>)
    decreases |es|
  {
    if es == [] then m else Apply(m[es[0].id := es[0].path], es[1..])
  }

  lemma {:induction false} ApplyConcat(m: map<int, string>, a: seq<PathEntry>, b: seq<PathEntry>)
    ensures Apply(m, a + b) == Apply(Apply(m, a), b)
    decreases |a|
  {
    if a == [] {
      assert a + b == b;
    } else {
      assert (a + b)[1..] == a[1..] + b;
      ApplyConcat(m[a[0].id := a[0].path], a[1..], b);
    }
  }

  /** The map visit sets the paths in the order of the listing. */
  lemma {:induction false} VisitIsApply(m: map<int, string>, ns: seq<TagNode>, prefix: seq<string>)
    ensures Visit(m, ns, prefix) == Apply(m, Flatten(ns, prefix))
    decreases ns
  {
    if ns != [] {
      var path := prefix + [ns[0].name];
      var e := PathEntry(ns[0].id, Join(path, "/"), ns[0].name);
      var m1 := m[ns[0].id := Join(path, "/")];
      VisitIsApply(m1, ns[0].children, path);
      VisitIsApply(Visit(m1, ns[0].children, path), ns[1..], prefix);
      ApplyConcat(m, [e], Flatten(ns[0].children, path));
      ApplyConcat(m, [e] + Flatten(ns[0].children, path), Flatten(ns[1..], prefix));
      assert Apply(m, [e]) == m1;
    }
  }

  function EntryIds(es: seq<PathEntry>): (r: seq<int>)
    ensures |r| == |es| && forall k :: 0 <= k < |es| ==> r[k] == es[k].id
  {
    if es == [] then [] else [es[0].id] + EntryIds(es[1..])
  }

  /** An id that no later entry sets keeps its value. */
  lemma {:induction false} ApplyKeeps(m: map<int, string>, es: seq<PathEntry>, k: int)
    requires k in m && k !in EntryIds(es)
    ensures k in Apply(m, es) && Apply(m, es)[k] == m[k]
    decreases |es|
  {
    if es != [] {
      assert EntryIds(es[1..]) == EntryIds(es)[1..];
      ApplyKeeps(m[es[0].id := es[0].path], es[1..], k);
    }
  }

  /** With distinct ids, every entry's path is what the map holds. */
  lemma ApplyDistinct(m: map<int, string>, es: seq<PathEntry>, k: int)
    requires Distinct(EntryIds(es)) && 0 <= k < |es|
    ensures es[k].id in Apply(m, es) && Apply(m, es)[es[k].id] == es[k].path
  {
    var a := es[..k];
    var b := es[k + 1..];
    assert es == a + [es[k]] + b;
    ApplyConcat(m, a + [es[k]], b);
    ApplyConcat(m, a, [es[k]]);
    var m1 := Apply(Apply(m, a), [es[k]]);
    assert m1 == Apply(m, a)[es[k].id := es[k].path];
    forall j | 0 <= j < |b| ensures EntryIds(b)[j] != es[k].id {
      assert b[j] == es[k + 1 + j];
    }
    ApplyKeeps(m1, b, es[k].id);
  }

  /** The listing and the map agree: every listed path is the mapped one. */
  lemma FlattenAgreesWithPathMap(tree: seq<TagNode>, k: int)
    requires Distinct(PreorderAll(tree)) && 0 <= k < |Flatten(tree, [])|
    ensures Flatten(tree, [])[k].id in BuildTagPathMap(tree)
    ensures BuildTagPathMap(tree)[Flatten(tree, [])[k].id] == Flatten(tree, [])[k].path
  {
    var es := Flatten(tree, []);
    assert EntryIds(es) == PreorderAll(tree);
    VisitIsApply(map[], tree, []);
    ApplyDistinct(map[], es, k);
  }

  /** `n` is a node somewhere in the tree. */
  predicate Occurs(ns: seq<TagNode>, n: TagNode)
    decreases ns
  {
    ns != [] && (ns[0] == n || Occurs(ns[0].children, n) || Occurs(ns[1..], n))
  }

  /** The entry of a top-level node. */
  lemma TopEntry(ns: seq<TagNode>, prefix: seq<string>, i: int)
    requires 0 <= i < |ns|
    ensures PathEntry(ns[i].id, PathOf(prefix, ns[i].name), ns[i].name) in Flatten(ns, prefix)
    decreases i
  {
    if i > 0 {
      TopEntry(ns[1..], prefix, i - 1);
    }
  }

  /** A node and each of its children are listed with the child's path one
      segment longer than the node's. */
  lemma {:induction false} ChildEntry(ns: seq<TagNode>, prefix: seq<string>, n: TagNode, j: int) returns (p: seq<string>)
    requires Occurs(ns, n) && 0 <= j < |n.children|
    ensures PathEntry(n.id, PathOf(p, n.name), n.name) in Flatten(ns, prefix)
    ensures PathEntry(n.children[j].id, PathOf(p + [n.name], n.children[j].name), n.children[j].name) in Flatten(ns, prefix)
    decreases ns
  {
    var path := prefix + [ns[0].name];
    var inner := Flatten(ns[0].children, path);
    var rest := Flatten(ns[1..], prefix);
    assert Flatten(ns, prefix) == [PathEntry(ns[0].id, Join(path, "/"), ns[0].name)] + inner + rest;
    if ns[0] == n {
      p := prefix;
      TopEntry(n.children, path, j);
    } else if Occurs(ns[0].children, n) {
      p := ChildEntry(ns[0].children, path, n, j);
    } else {
      p := ChildEntry(ns[1..], prefix, n, j);
    }
  }

  /** In `buildTagPathMap` a top-level tag's path is its name. */
  lemma RootPath(tree: seq<TagNode>, i: int)
    requires Distinct(PreorderAll(tree)) && 0 <= i < |tree|
    ensures tree[i].id in BuildTagPathMap(tree) && BuildTagPathMap(tree)[tree[i].id] == tree[i].name
  {
    TopEntry(tree, [], i);
    PathExtends([], "", tree[i].name);
    var k :| 0 <= k < |Flatten(tree, [])| && Flatten(tree, [])[k] == PathEntry(tree[i].id, tree[i].name, tree[i].name);
    FlattenAgreesWithPathMap(tree, k);
  }

  /** In `buildTagPathMap` a child's path is its parent's path, a slash
      and its own name. */
  lemma ChildPath(tree: seq<TagNode>, n: TagNode, j: int)
    requires Distinct(PreorderAll(tree)) && Occurs(tree, n) && 0 <= j < |n.children|
    ensures n.id in BuildTagPathMap(tree) && n.children[j].id in BuildTagPathMap(tree)
    ensures BuildTagPathMap(tree)[n.children[j].id] == BuildTagPathMap(tree)[n.id] + "/" + n.children[j].name
  {
    var es := Flatten(tree, []);
    var p := ChildEntry(tree, [], n, j);
    var c := n.children[j];
    var a :| 0 <= a < |es| && es[a] == PathEntry(n.id, PathOf(p, n.name), n.name);
    var b :| 0 <= b < |es| && es[b] == PathEntry(c.id, PathOf(p + [n.name], c.name), c.name);
    FlattenAgreesWithPathMap(tree, a);
    FlattenAgreesWithPathMap(tree, b);
    PathExtends(p, n.name, c.name);
  }

  /** On the tag forest of a store the paths are well defined: every tag
      has exactly one entry in the listing. */
  lemma ForestPathsDistinct(tags: map<int, TagRow>)
    requires Buildable(tags)
    ensures Distinct(PreorderAll(Forest(tags)))
    ensures BuildTagPathMap(Forest(tags)).Keys == tags.Keys
    ensures Distinct(EntryIds(Flatten(Forest(tags), [])))
  {
    ForestExactlyOnce(tags);
    assert EntryIds(Flatten(Forest(tags), [])) == PreorderAll(Forest(tags));
  }
}
