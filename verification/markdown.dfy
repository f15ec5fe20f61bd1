/** The markdown form of an export: `renderTagMarkdown`,
    `renderTodoMarkdown` and `toMarkdown`. Each node is one line, indented
    two spaces per level, followed by the lines of its children one level
    deeper; the lines of a list of nodes are joined with newlines. */
module Markdown {
  import opened Wrappers
  import opened Closure
  import opened Text
  import opened Sorting
  import opened Schema
  import opened Lists
  import opened TagForest
  import opened Export

  /** `"  ".repeat(depth)`. */
  function Indent(depth: nat): (r: string)
    ensures |r| == 2 * depth && forall i :: 0 <= i < |r| ==> r[i] == ' '
  {
    if depth == 0 then "" else "  " + Indent(depth - 1)
  }

  // ---------------------------------------------------------------------------
  // Tags

  /** `${prefix}- ${node.name} (#${node.id})`. */
  function TagLine(n: TagNode, depth: nat): string {
    Indent(depth) + "- " + n.name + " (#" + IntToString(n.id) + ")"
  }

  /** `renderTagMarkdown(nodes, depth)`: the nodes' texts joined by newlines. */
  function RenderTags(ns: seq<TagNode>, depth: nat): string
    decreases ns
  {
    if ns == [] then ""
    else if |ns| == 1 then RenderTag(ns[0], depth)
    else RenderTag(ns[0], depth) + "\n" + RenderTags(ns[1..], depth)
  }

  /** One node's text: its line, then its children's text one level deeper
      when it has children. */
  function RenderTag(n: TagNode, depth: nat): string
    decreases n
  {
    if n.children == [] then TagLine(n, depth)
    else TagLine(n, depth) + "\n" + RenderTags(n.children, depth + 1)
  }

  /** The lines of a tag forest, in preorder. */
  function TagLines(ns: seq<TagNode>, depth: nat): seq<string>
    decreases ns
  {
    if ns == [] then [] else TagNodeLines(ns[0], depth) + TagLines(ns[1..], depth)
  }

  function TagNodeLines(n: TagNode, depth: nat): seq<string>
    decreases n
  {
    [TagLine(n, depth)] + TagLines(n.children, depth + 1)
  }

  /** The rendered text is its lines joined by newlines, and there is one
      line per node. */
  lemma {:induction false} RenderTagsLines(ns: seq<TagNode>, depth: nat)
    ensures ns != [] ==> RenderTags(ns, depth) == Join(TagLines(ns, depth), "\n")
    ensures |TagLines(ns, depth)| == |PreorderAll(ns)|
    decreases ns
  {
    if ns != [] {
      RenderTagLines(ns[0], depth);
      RenderTagsLines(ns[1..], depth);
      if |ns| > 1 {
        JoinConcat(TagNodeLines(ns[0], depth), TagLines(ns[1..], depth), "\n");
      } else {
        assert ns[1..] == [];
        assert TagLines(ns, depth) == TagNodeLines(ns[0], depth);
      }
    }
  }

  lemma {:induction false} RenderTagLines(n: TagNode, depth: nat)
    ensures RenderTag(n, depth) == Join(TagNodeLines(n, depth), "\n")
    ensures |TagNodeLines(n, depth)| == |Preorder(n)|
    decreases n
  {
    RenderTagsLines(n.children, depth + 1);
    if n.children != [] {
      JoinConcat([TagLine(n, depth)], TagLines(n.children, depth + 1), "\n");
    } else {
      assert TagNodeLines(n, depth) == [TagLine(n, depth)];
    }
  }

  /** No tag name in the tree spans two lines. */
  predicate SingleLineTree(n: TagNode)
    decreases n
  {
    '\n' !in n.name && SingleLineForest(n.children)
  }

  predicate SingleLineForest(ns: seq<TagNode>)
    decreases ns
  {
    forall i :: 0 <= i < |ns| ==> SingleLineTree(ns[i])
  }

  lemma NumberSingleLine(i: int)
    ensures '\n' !in IntToString(i) && ',' !in IntToString(i)
  {
    forall k | 0 <= k < |IntToString(i)| ensures IntToString(i)[k] != '\n' && IntToString(i)[k] != ',' {
    }
  }

  lemma IndentSingleLine(depth: nat)
    ensures '\n' !in Indent(depth)
  {
    forall k | 0 <= k < |Indent(depth)| ensures Indent(depth)[k] != '\n' {
    }
  }

  /** None of the lines contains a line break. */
  predicate NoNewlines(lines: seq<string>) {
    forall i :: 0 <= i < |lines| ==> '\n' !in lines[i]
  }

  lemma NoNewlinesConcat(a: seq<string>, b: seq<string>)
    requires NoNewlines(a) && NoNewlines(b)
    ensures NoNewlines(a + b)
  {
    forall i | 0 <= i < |a + b| ensures '\n' !in (a + b)[i] {
      if i < |a| {
        assert (a + b)[i] == a[i];
      } else {
        assert (a + b)[i] == b[i - |a|];
      }
    }
  }

  lemma {:induction false} TagLinesSingle(ns: seq<TagNode>, depth: nat)
    requires SingleLineForest(ns)
    ensures NoNewlines(TagLines(ns, depth))
    decreases ns
  {
    if ns != [] {
      var n := ns[0];
      assert SingleLineTree(n);
      TagLinesSingle(n.children, depth + 1);
      NumberSingleLine(n.id);
      IndentSingleLine(depth);
      assert '\n' !in TagLine(n, depth);
      NoNewlinesConcat([TagLine(n, depth)], TagLines(n.children, depth + 1));
      assert SingleLineForest(ns[1..]) by {
        forall i | 0 <= i < |ns[1..]| ensures SingleLineTree(ns[1..][i]) {
          assert ns[1..][i] == ns[i + 1];
        }
      }
      TagLinesSingle(ns[1..], depth);
      NoNewlinesConcat(TagNodeLines(n, depth), TagLines(ns[1..], depth));
    }
  }

  /** Valid tag names are single words, so the forest of a store renders
      one line per tag. */
  lemma {:induction false} NodeSingleLine(tags: map<int, TagRow>, k: int)
    requires Buildable(tags) && k in tags
    requires forall j :: j in tags ==> ValidTagName(tags[j].name)
    ensures SingleLineTree(Node(tags, k))
    decreases |Reach(ParentRel(tags), k)|
  {
    WordLacks(tags[k].name, '\n');
    var cs := Node(tags, k).children;
    ChildFacts(tags, k);
    forall i | 0 <= i < |cs| ensures SingleLineTree(cs[i]) {
      assert ChildOf(tags, k, cs[i]);
      NodeSingleLine(tags, cs[i].id);
    }
  }

  lemma ForestSingleLine(tags: map<int, TagRow>)
    requires Buildable(tags)
    requires forall j :: j in tags ==> ValidTagName(tags[j].name)
    ensures SingleLineForest(Forest(tags))
  {
    var f := Forest(tags);
    ForestFacts(tags);
    forall i | 0 <= i < |f| ensures SingleLineTree(f[i]) {
      NodeSingleLine(tags, f[i].id);
    }
  }

  // ---------------------------------------------------------------------------
  // Todos

  function BoolText(b: bool): string {
    if b then "true" else "false"
  }

  /** `predecessorIds.map((id) => `#${id}`).join(",")`, or "none". */
  function PredecessorsText(ids: seq<int>): (r: string)
    ensures ids == [] <==> r == "none"
  {
    if ids == [] then "none"
    else
      var r := Join(IdRefs(ids), ",");
      assert r[0] == '#' by {
        JoinHead(IdRefs(ids), ",");
      }
      r
  }

  /** `#id` for each id. */
  function IdRefs(ids: seq<int>): (r: seq<string>)
    ensures |r| == |ids| && forall i :: 0 <= i < |ids| ==> r[i] == "#" + IntToString(ids[i])
  {
    seq(|ids|, i requires 0 <= i < |ids| => "#" + IntToString(ids[i]))
  }

  lemma JoinHead(parts: seq<string>, sep: string)
    requires |parts| >= 1 && |parts[0]| >= 1
    ensures |Join(parts, sep)| >= 1 && Join(parts, sep)[0] == parts[0][0]
  {
  }

  /** The predecessor list can be read back from its text. */
  lemma PredecessorsTextInjective(a: seq<int>, b: seq<int>)
    requires PredecessorsText(a) == PredecessorsText(b)
    ensures a == b
  {
    if a != [] && b != [] {
      forall i | 0 <= i < |IdRefs(a)| ensures ',' !in IdRefs(a)[i] {
        NumberSingleLine(a[i]);
      }
      forall i | 0 <= i < |IdRefs(b)| ensures ',' !in IdRefs(b)[i] {
        NumberSingleLine(b[i]);
      }
      SplitJoin(IdRefs(a), ',');
      SplitJoin(IdRefs(b), ',');
      assert IdRefs(a) == IdRefs(b);
      forall i | 0 <= i < |a| ensures a[i] == b[i] {
        assert IdRefs(a)[i][1..] == IntToString(a[i]);
        assert IdRefs(b)[i][1..] == IntToString(b[i]);
        IntToStringInjective(a[i], b[i]);
      }
    }
  }

  /** The bracket line of `renderTodoMarkdown`. */
  function TodoLine(n: TodoNode, depth: nat): string {
    Indent(depth) + "- #" + IntToString(n.id()) + " " + n.todo.description +
    " [status=" + StatusName(n.todo.status) +
    ", blocked=" + BoolText(n.isBlocked) +
    ", tag=" + (if n.todo.tagId.Some? then IntToString(n.todo.tagId.value) else "none") +
    ", predecessors=" + PredecessorsText(n.predecessorIds) + "]"
  }

  /** `renderTodoMarkdown(nodes, depth)`. */
  function RenderTodos(ns: seq<TodoNode>, depth: nat): string
    decreases ns
  {
    if ns == [] then ""
    else if |ns| == 1 then RenderTodo(ns[0], depth)
    else RenderTodo(ns[0], depth) + "\n" + RenderTodos(ns[1..], depth)
  }

  function RenderTodo(n: TodoNode, depth: nat): string
    decreases n
  {
    if n.children == [] then TodoLine(n, depth)
    else TodoLine(n, depth) + "\n" + RenderTodos(n.children, depth + 1)
  }

  function TodoLines(ns: seq<TodoNode>, depth: nat): seq<string>
    decreases ns
  {
    if ns == [] then [] else TodoNodeLines(ns[0], depth) + TodoLines(ns[1..], depth)
  }

  function TodoNodeLines(n: TodoNode, depth: nat): seq<string>
    decreases n
  {
    [TodoLine(n, depth)] + TodoLines(n.children, depth + 1)
  }

  /** The number of nodes once every shared successor is written out under
      each of its predecessors. */
  function Count(ns: seq<TodoNode>): nat
    decreases ns
  {
    if ns == [] then 0 else CountNode(ns[0]) + Count(ns[1..])
  }

  function CountNode(n: TodoNode): nat
    decreases n
  {
    1 + Count(n.children)
  }

  lemma {:induction false} RenderTodosLines(ns: seq<TodoNode>, depth: nat)
    ensures ns != [] ==> RenderTodos(ns, depth) == Join(TodoLines(ns, depth), "\n")
    ensures |TodoLines(ns, depth)| == Count(ns)
    decreases ns
  {
    if ns != [] {
      RenderTodoLines(ns[0], depth);
      RenderTodosLines(ns[1..], depth);
      if |ns| > 1 {
        JoinConcat(TodoNodeLines(ns[0], depth), TodoLines(ns[1..], depth), "\n");
      } else {
        assert ns[1..] == [];
        assert TodoLines(ns, depth) == TodoNodeLines(ns[0], depth);
      }
    }
  }

  lemma {:induction false} RenderTodoLines(n: TodoNode, depth: nat)
    ensures RenderTodo(n, depth) == Join(TodoNodeLines(n, depth), "\n")
    ensures |TodoNodeLines(n, depth)| == CountNode(n)
    decreases n
  {
    RenderTodosLines(n.children, depth + 1);
    if n.children != [] {
      JoinConcat([TodoLine(n, depth)], TodoLines(n.children, depth + 1), "\n");
    } else {
      assert TodoNodeLines(n, depth) == [TodoLine(n, depth)];
    }
  }

  /** No description in the tree spans two lines. */
  predicate SingleLineTodo(n: TodoNode)
    decreases n
  {
    '\n' !in n.todo.description && SingleLineTodos(n.children)
  }

  predicate SingleLineTodos(ns: seq<TodoNode>)
    decreases ns
  {
    forall i :: 0 <= i < |ns| ==> SingleLineTodo(ns[i])
  }

  lemma TodoLineSingle(n: TodoNode, depth: nat)
    requires '\n' !in n.todo.description
    ensures '\n' !in TodoLine(n, depth)
  {
    IndentSingleLine(depth);
    NumberSingleLine(n.id());
    var tag := if n.todo.tagId.Some? then IntToString(n.todo.tagId.value) else "none";
    if n.todo.tagId.Some? {
      NumberSingleLine(n.todo.tagId.value);
    }
    PredecessorsSingleLine(n.predecessorIds);
    assert forall i :: 0 <= i < |StatusName(n.todo.status)| ==> StatusName(n.todo.status)[i] != '\n';
    assert '\n' !in BoolText(n.isBlocked);
    var s1 := Indent(depth) + "- #" + IntToString(n.id());
    assert '\n' !in s1;
    var s2 := s1 + " " + n.todo.description + " [status=";
    assert '\n' !in s2;
    var s3 := s2 + StatusName(n.todo.status) + ", blocked=" + BoolText(n.isBlocked);
    assert '\n' !in s3;
    var s4 := s3 + ", tag=" + tag + ", predecessors=";
    assert '\n' !in s4;
    assert TodoLine(n, depth) == s4 + PredecessorsText(n.predecessorIds) + "]";
  }

  lemma PredecessorsSingleLine(ps: seq<int>)
    ensures '\n' !in PredecessorsText(ps)
  {
    if ps != [] {
      forall i | 0 <= i < |IdRefs(ps)| ensures '\n' !in IdRefs(ps)[i] {
        NumberSingleLine(ps[i]);
      }
      JoinChars(IdRefs(ps), ",", '\n');
    }
  }

  lemma {:induction false} TodoLinesSingle(ns: seq<TodoNode>, depth: nat)
    requires SingleLineTodos(ns)
    ensures NoNewlines(TodoLines(ns, depth))
    decreases ns
  {
    if ns != [] {
      var n := ns[0];
      assert SingleLineTodo(n);
      TodoLinesSingle(n.children, depth + 1);
      TodoLineSingle(n, depth);
      NoNewlinesConcat([TodoLine(n, depth)], TodoLines(n.children, depth + 1));
      assert SingleLineTodos(ns[1..]) by {
        forall i | 0 <= i < |ns[1..]| ensures SingleLineTodo(ns[1..][i]) {
          assert ns[1..][i] == ns[i + 1];
        }
      }
      TodoLinesSingle(ns[1..], depth);
      NoNewlinesConcat(TodoNodeLines(n, depth), TodoLines(ns[1..], depth));
    }
  }

  // ---------------------------------------------------------------------------
  // The document

  const Header: seq<string> := ["# sitback export", "", "## tag_tree"]
  const TodoHeader: seq<string> := ["", "## todo_tree"]
  const NoneLine := "- (none)"

  /** `toMarkdown(payload)`. */
  function ToMarkdown(t: ExportTree): string {
    var tags := if |t.tagTree| > 0 then RenderTags(t.tagTree, 0) else NoneLine;
    var todos := if |t.todoTree| > 0 then RenderTodos(t.todoTree, 0) else NoneLine;
    "# sitback export\n\n## tag_tree\n" + tags + "\n\n## todo_tree\n" + todos
  }

  /** The lines of the tag section: one per tag, or the placeholder. */
  function TagSection(ns: seq<TagNode>): seq<string> {
    if ns == [] then [NoneLine] else TagLines(ns, 0)
  }

  function TodoSection(ns: seq<TodoNode>): seq<string> {
    if ns == [] then [NoneLine] else TodoLines(ns, 0)
  }

  lemma TagSectionJoin(ns: seq<TagNode>)
    ensures |TagSection(ns)| >= 1
    ensures (if |ns| > 0 then RenderTags(ns, 0) else NoneLine) == Join(TagSection(ns), "\n")
  {
    RenderTagsLines(ns, 0);
    if ns != [] {
      assert |Preorder(ns[0])| >= 1;
    }
  }

  lemma TodoSectionJoin(ns: seq<TodoNode>)
    ensures |TodoSection(ns)| >= 1
    ensures (if |ns| > 0 then RenderTodos(ns, 0) else NoneLine) == Join(TodoSection(ns), "\n")
  {
    RenderTodosLines(ns, 0);
    if ns != [] {
      assert CountNode(ns[0]) >= 1;
    }
  }

  lemma JoinTwo(a: string, b: string, sep: string)
    ensures Join([a, b], sep) == a + sep + b
  {
    assert [a, b][1..] == [b];
  }

  lemma JoinThree(a: string, b: string, c: string, sep: string)
    ensures Join([a, b, c], sep) == a + sep + b + sep + c
  {
    assert [a, b, c][1..] == [b, c];
    JoinTwo(b, c, sep);
  }

  /** The fixed text around the two sections, line by line. */
  lemma FixedText(s: string, t: string)
    ensures "# sitback export" + "\n" + "" + "\n" + "## tag_tree" + "\n" + s + "\n" + ("" + "\n" + "## todo_tree") + "\n" + t ==
      "# sitback export\n\n## tag_tree\n" + s + "\n\n## todo_tree\n" + t
  {
    assert "# sitback export" + "\n" + "" + "\n" + "## tag_tree" + "\n" == "# sitback export\n\n## tag_tree\n";
    assert "\n" + ("" + "\n" + "## todo_tree") + "\n" == "\n\n## todo_tree\n";
  }

  /** The document is its lines joined by newlines. */
  lemma MarkdownJoin(t: ExportTree)
    ensures ToMarkdown(t) == Join(Header + TagSection(t.tagTree) + TodoHeader + TodoSection(t.todoTree), "\n")
  {
    var tags := TagSection(t.tagTree);
    var todos := TodoSection(t.todoTree);
    var s := if |t.tagTree| > 0 then RenderTags(t.tagTree, 0) else NoneLine;
    var u := if |t.todoTree| > 0 then RenderTodos(t.todoTree, 0) else NoneLine;
    TagSectionJoin(t.tagTree);
    TodoSectionJoin(t.todoTree);
    JoinConcat(Header, tags, "\n");
    JoinConcat(Header + tags, TodoHeader, "\n");
    JoinConcat(Header + tags + TodoHeader, todos, "\n");
    JoinThree("# sitback export", "", "## tag_tree", "\n");
    JoinTwo("", "## todo_tree", "\n");
    FixedText(s, u);
  }

  /** The document read line by line: the header, the tag section, the
      todo header and the todo section, where a section is one line per
      node of the (expanded) tree or a single "- (none)". */
  lemma MarkdownLines(t: ExportTree)
    requires SingleLineForest(t.tagTree) && SingleLineTodos(t.todoTree)
    ensures Split(ToMarkdown(t), '\n') == Header + TagSection(t.tagTree) + TodoHeader + TodoSection(t.todoTree)
  {
    MarkdownJoin(t);
    DocumentSingleLines(t);
    SplitJoin(Header + TagSection(t.tagTree) + TodoHeader + TodoSection(t.todoTree), '\n');
  }

  /** No line of the document holds a newline. */
  lemma DocumentSingleLines(t: ExportTree)
    requires SingleLineForest(t.tagTree) && SingleLineTodos(t.todoTree)
    ensures NoNewlines(Header + TagSection(t.tagTree) + TodoHeader + TodoSection(t.todoTree))
  {
    var tags := TagSection(t.tagTree);
    var todos := TodoSection(t.todoTree);
    TagLinesSingle(t.tagTree, 0);
    TodoLinesSingle(t.todoTree, 0);
    FixedLinesSingle();
    assert NoNewlines(tags) && NoNewlines(todos);
    NoNewlinesConcat(Header, tags);
    NoNewlinesConcat(Header + tags, TodoHeader);
    NoNewlinesConcat(Header + tags + TodoHeader, todos);
  }

  lemma FixedLinesSingle()
    ensures NoNewlines(Header) && NoNewlines(TodoHeader) && NoNewlines([NoneLine])
  {
  }

  /** Descriptions without newlines give single-line todo lines all the
      way down the expansion. */
  lemma {:induction false} ExpandSingleLine(db: Db, k: int)
    requires Nestable(db) && k in db.todos
    requires forall j :: j in db.todos ==> '\n' !in db.todos[j].description
    ensures SingleLineTodo(Expand(db, k))
    decreases |Reach(Graph(db), k)|
  {
    var cs := Expand(db, k).children;
    forall i | 0 <= i < |cs| ensures SingleLineTodo(cs[i]) {
      ChildIsExpanded(db, k, i);
      var c := cs[i].id();
      assert c in Elements(Ids(cs));
      StepShrinks(Graph(db), k, c);
      ExpandSingleLine(db, c);
    }
  }

  lemma {:induction false} DistinctCard(xs: seq<int>)
    requires Distinct(xs)
    ensures |Elements(xs)| == |xs|
    decreases |xs|
  {
    if xs != [] {
      DistinctCard(xs[1..]);
      assert Elements(xs) == {xs[0]} + Elements(xs[1..]);
      assert xs[0] !in Elements(xs[1..]);
    }
  }

  /** With single-line descriptions, every line of the export is one line. */
  lemma ExportSingleLine(db: Db)
    requires Valid(db)
    requires forall j :: j in db.todos ==> '\n' !in db.todos[j].description
    ensures Buildable(db.tags) && Nestable(db)
    ensures SingleLineForest(GetExportTree(db).tagTree) && SingleLineTodos(GetExportTree(db).todoTree)
  {
    ValidExports(db);
    var t := GetExportTree(db);
    ForestSingleLine(db.tags);
    forall i | 0 <= i < |t.todoTree| ensures SingleLineTodo(t.todoTree[i]) {
      TodoTreeExpanded(db, i);
      ExpandSingleLine(db, t.todoTree[i].id());
    }
  }

  /** The tag section has one line per tag, or the placeholder alone. */
  lemma TagSectionCount(db: Db)
    requires Buildable(db.tags) && Nestable(db)
    ensures |TagSection(GetExportTree(db).tagTree)| == if db.tags == map[] then 1 else |db.tags|
  {
    var t := GetExportTree(db);
    RenderTagsLines(t.tagTree, 0);
    DistinctCard(PreorderAll(t.tagTree));
    assert |db.tags| == |db.tags.Keys|;
    if db.tags != map[] {
      var k :| k in db.tags;
      assert k in Elements(PreorderAll(t.tagTree));
    }
  }

  lemma TodoLinesHead(ns: seq<TodoNode>, depth: nat)
    requires ns != []
    ensures |TodoLines(ns, depth)| >= 1 && TodoLines(ns, depth)[0] == TodoLine(ns[0], depth)
  {
    assert TodoNodeLines(ns[0], depth)[0] == TodoLine(ns[0], depth);
  }

  /** A top-level todo line never reads as the placeholder: its third
      character is `#`, the placeholder's is `(`. */
  lemma TodoLineNotPlaceholder(n: TodoNode)
    ensures TodoLine(n, 0) != NoneLine
  {
    assert Indent(0) == "";
    var tag := if n.todo.tagId.Some? then IntToString(n.todo.tagId.value) else "none";
    var s1 := Indent(0) + "- #" + IntToString(n.id());
    assert s1[2] == '#';
    var s2 := s1 + " " + n.todo.description + " [status=";
    assert s2[2] == '#';
    var s3 := s2 + StatusName(n.todo.status) + ", blocked=" + BoolText(n.isBlocked);
    assert s3[2] == '#';
    var s4 := s3 + ", tag=" + tag + ", predecessors=";
    assert s4[2] == '#';
    assert TodoLine(n, 0) == s4 + PredecessorsText(n.predecessorIds) + "]";
    assert TodoLine(n, 0)[2] == '#';
    assert NoneLine[2] == '(';
  }

  /** The todo section is the placeholder exactly when there are no todos. */
  lemma TodoSectionEmpty(db: Db)
    requires Buildable(db.tags) && Nestable(db)
    ensures db.todos == map[] <==> TodoSection(GetExportTree(db).todoTree) == [NoneLine]
  {
    var t := GetExportTree(db);
    TodoTreeCoversTodos(db);
    if db.todos != map[] {
      var k :| k in db.todos;
      assert k in WithinAll(t.todoTree);
      assert t.todoTree != [];
      TodoLinesHead(t.todoTree, 0);
      TodoLineNotPlaceholder(t.todoTree[0]);
    }
  }

  /** The export of a valid store, read line by line: the tag section has
      one line per tag, the todo section one per node of the expanded todo
      tree, and an empty table gives the single placeholder line. */
  lemma ExportLines(db: Db)
    requires Valid(db)
    requires forall j :: j in db.todos ==> '\n' !in db.todos[j].description
    ensures Buildable(db.tags) && Nestable(db)
    ensures Split(ToMarkdown(GetExportTree(db)), '\n') ==
      Header + TagSection(GetExportTree(db).tagTree) + TodoHeader + TodoSection(GetExportTree(db).todoTree)
    ensures |TagSection(GetExportTree(db).tagTree)| == if db.tags == map[] then 1 else |db.tags|
    ensures db.todos == map[] <==> TodoSection(GetExportTree(db).todoTree) == [NoneLine]
  {
    ExportSingleLine(db);
    MarkdownLines(GetExportTree(db));
    TagSectionCount(db);
    TodoSectionEmpty(db);
  }
}
