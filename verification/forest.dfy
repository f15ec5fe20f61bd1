/** The tag forest of `buildTagForest` and `sortTagTree`: every tag becomes
    a node, placed under its parent when the parent is among the rows and
    at the top level otherwise (no parent, or a parent that is missing);
    the top level and every list of children are sorted by name, then id.
    Also the tag summaries built on it. */
module TagForest {
  import opened Wrappers
  import opened Text
  import opened Closure
  import opened Sorting
  import opened Schema
  import opened Lists
  import opened Tags

  datatype TagNode = TagNode(id: int, name: string, parentId: Option<int>, children: seq<TagNode>)

  /** The row a node was built from. */
  function NodeRow(n: TagNode): TagRow {
    TagRow(n.id, n.name, n.parentId)
  }

  function Rows(ns: seq<TagNode>): (r: seq<TagRow>)
    ensures |r| == |ns| && forall i :: 0 <= i < |ns| ==> r[i] == NodeRow(ns[i])
  {
    if ns == [] then [] else [NodeRow(ns[0])] + Rows(ns[1..])
  }

  lemma RowsOf(ns: seq<TagNode>, rows: seq<TagRow>)
    requires |ns| == |rows| && forall i :: 0 <= i < |ns| ==> NodeRow(ns[i]) == rows[i]
    ensures Rows(ns) == rows
  {
  }

  lemma RowIndex(ns: seq<TagNode>, t: TagRow) returns (i: nat)
    requires t in Elements(Rows(ns))
    ensures i < |ns| && NodeRow(ns[i]) == t
  {
    i :| 0 <= i < |Rows(ns)| && Rows(ns)[i] == t;
  }

  /** The sibling order `a.name.localeCompare(b.name) || a.id - b.id`, with
      names compared character by character. */
  predicate SiblingBefore(a: TagRow, b: TagRow) {
    LexLt(a.name, b.name) || (a.name == b.name && a.id < b.id)
  }

  function BySibling(): (TagRow, TagRow) -> bool {
    (a, b) => SiblingBefore(a, b)
  }

  /** Rows of one table: one row per id. */
  predicate RowIdsDistinct(s: set<TagRow>) {
    forall a, b :: a in s && b in s && a.id == b.id ==> a == b
  }

  lemma SiblingStrictTotal(s: set<TagRow>)
    requires RowIdsDistinct(s)
    ensures StrictTotalOn(BySibling(), s)
  {
    forall a, b, c | a in s && b in s && c in s
      ensures !SiblingBefore(a, a)
      ensures a != b ==> SiblingBefore(a, b) || SiblingBefore(b, a)
      ensures SiblingBefore(a, b) && SiblingBefore(b, c) ==> SiblingBefore(a, c)
    {
      LexIrreflexive(a.name);
      LexTotal(a.name, b.name);
      LexAsymmetric(a.name, b.name);
      LexAsymmetric(b.name, c.name);
      if LexLt(a.name, b.name) && LexLt(b.name, c.name) {
        LexTransitive(a.name, b.name, c.name);
      }
    }
  }

  /** What the forest can be built from: rows stored under their ids, and
      parent pointers without a cycle (which the database guarantees). */
  predicate Buildable(tags: map<int, TagRow>) {
    TagsKeyedById(tags) && Acyclic(ParentRel(tags))
  }

  /** The tags whose parent is `k`. */
  function ChildRows(tags: map<int, TagRow>, k: int): (r: set<TagRow>)
    requires TagsKeyedById(tags)
    ensures RowIdsDistinct(r)
    ensures forall t :: t in r <==> t.id in tags && tags[t.id] == t && t.parentId == Some(k)
  {
    set c | c in tags && tags[c].parentId == Some(k) :: tags[c]
  }

  /** A top-level tag: no parent, or a parent that is not among the rows. */
  predicate IsRoot(tags: map<int, TagRow>, k: int) {
    k in tags && (tags[k].parentId.None? || tags[k].parentId.value !in tags)
  }

  function RootRows(tags: map<int, TagRow>): (r: set<TagRow>)
    requires TagsKeyedById(tags)
    ensures RowIdsDistinct(r)
    ensures forall t :: t in r <==> t.id in tags && tags[t.id] == t && IsRoot(tags, t.id)
  {
    set k | k in tags && IsRoot(tags, k) :: tags[k]
  }

  /** A child of `k` reaches strictly fewer tags than `k`. */
  lemma ChildrenShrink(tags: map<int, TagRow>, k: int, kids: seq<TagRow>)
    requires Buildable(tags) && Elements(kids) == ChildRows(tags, k)
    ensures forall i :: 0 <= i < |kids| ==>
      kids[i].id in tags && |Reach(ParentRel(tags), kids[i].id)| < |Reach(ParentRel(tags), k)|
  {
    forall i | 0 <= i < |kids|
      ensures kids[i].id in tags && |Reach(ParentRel(tags), kids[i].id)| < |Reach(ParentRel(tags), k)|
    {
      assert kids[i] in Elements(kids);
      StepShrinks(ParentRel(tags), k, kids[i].id);
    }
  }

  /** The node of tag `k` with its subtree, children sorted. */
  function Node(tags: map<int, TagRow>, k: int): (n: TagNode)
    requires Buildable(tags) && k in tags
    ensures NodeRow(n) == tags[k]
    ensures Elements(Rows(n.children)) == ChildRows(tags, k)
    ensures SortedBy(BySibling(), Rows(n.children))
    decreases |Reach(ParentRel(tags), k)|
  {
    SiblingStrictTotal(ChildRows(tags, k));
    var kids := SortSet(BySibling(), ChildRows(tags, k));
    ChildrenShrink(tags, k, kids);
    var children := seq(|kids|, i requires 0 <= i < |kids| => Node(tags, kids[i].id));
    RowsOf(children, kids);
    TagNode(k, tags[k].name, tags[k].parentId, children)
  }

  /** `buildTagForest(rows).roots`: the top-level nodes, sorted. */
  function Forest(tags: map<int, TagRow>): (f: seq<TagNode>)
    requires Buildable(tags)
    ensures Elements(Rows(f)) == RootRows(tags)
    ensures SortedBy(BySibling(), Rows(f))
  {
    SiblingStrictTotal(RootRows(tags));
    var roots := SortSet(BySibling(), RootRows(tags));
    var f := seq(|roots|, i requires 0 <= i < |roots| => (assert roots[i] in Elements(roots); Node(tags, roots[i].id)));
    RowsOf(f, roots);
    f
  }

  // ---------------------------------------------------------------------------
  // Every tag exactly once

  /** The ids of a tree in preorder. */
  function Preorder(n: TagNode): seq<int>
    decreases n
  {
    [n.id] + PreorderAll(n.children)
  }

  function PreorderAll(ns: seq<TagNode>): seq<int>
    decreases ns
  {
    if ns == [] then [] else Preorder(ns[0]) + PreorderAll(ns[1..])
  }

  /** Everything reached from some node of the list. */
  function Under(rel: Rel, ns: seq<TagNode>): set<int>
    decreases |ns|
  {
    if ns == [] then {} else Reach(rel, ns[0].id) + Under(rel, ns[1..])
  }

  lemma {:induction false} UnderIndex(rel: Rel, ns: seq<TagNode>, i: int)
    requires 0 <= i < |ns|
    ensures Reach(rel, ns[i].id) <= Under(rel, ns)
    decreases |ns|
  {
    if i > 0 {
      UnderIndex(rel, ns[1..], i - 1);
      assert ns[1..][i - 1] == ns[i];
    }
  }

  lemma {:induction false} UnderWitness(rel: Rel, ns: seq<TagNode>, z: int) returns (i: nat)
    requires z in Under(rel, ns)
    ensures i < |ns| && z in Reach(rel, ns[i].id)
    decreases |ns|
  {
    if z in Reach(rel, ns[0].id) {
      i := 0;
    } else {
      var j := UnderWitness(rel, ns[1..], z);
      assert ns[1..][j] == ns[j + 1];
      i := j + 1;
    }
  }

  /** The subtrees of the listed nodes share no tag. */
  predicate DisjointReach(rel: Rel, ns: seq<TagNode>) {
    forall i, j, z :: 0 <= i < j < |ns| && z in Reach(rel, ns[i].id) ==> z !in Reach(rel, ns[j].id)
  }

  lemma DisjointTail(rel: Rel, ns: seq<TagNode>)
    requires ns != [] && DisjointReach(rel, ns)
    ensures DisjointReach(rel, ns[1..])
    ensures forall z :: z in Reach(rel, ns[0].id) ==> z !in Under(rel, ns[1..])
  {
    forall z | z in Reach(rel, ns[0].id) ensures z !in Under(rel, ns[1..]) {
      if z in Under(rel, ns[1..]) {
        var i := UnderWitness(rel, ns[1..], z);
      }
    }
    forall i, j, z | 0 <= i < j < |ns[1..]| && z in Reach(rel, ns[1..][i].id) ensures z !in Reach(rel, ns[1..][j].id) {
      assert ns[1..][i] == ns[i + 1] && ns[1..][j] == ns[j + 1];
    }
  }

  lemma ElementsConcat(a: seq<int>, b: seq<int>)
    ensures Elements(a + b) == Elements(a) + Elements(b)
  {
    assert forall x :: x in a + b <==> x in a || x in b;
  }

  /** A node that is the tree `Node` builds for its own id. */
  predicate Built(tags: map<int, TagRow>, n: TagNode) {
    Buildable(tags) && n.id in tags && n == Node(tags, n.id)
  }

  /** A child of `k` in the built tree: a tag whose parent is `k`, whose
      subtree is smaller, and whose node is built the same way. */
  predicate ChildOf(tags: map<int, TagRow>, k: int, c: TagNode) {
    Built(tags, c) && (k, c.id) in ParentRel(tags) &&
    |Reach(ParentRel(tags), c.id)| < |Reach(ParentRel(tags), k)|
  }

  lemma ChildFacts(tags: map<int, TagRow>, k: int)
    requires Buildable(tags) && k in tags
    ensures forall i :: 0 <= i < |Node(tags, k).children| ==> ChildOf(tags, k, Node(tags, k).children[i])
  {
    SiblingStrictTotal(ChildRows(tags, k));
    var kids := SortSet(BySibling(), ChildRows(tags, k));
    ChildrenShrink(tags, k, kids);
    var ns := Node(tags, k).children;
    forall i | 0 <= i < |ns| ensures ChildOf(tags, k, ns[i]) {
      assert kids[i] in Elements(kids);
      assert ns[i] == Node(tags, kids[i].id);
    }
  }

  /** A built node holds exactly its child rows, sorted by (name, id), and
      each child is built the same way: the tree nests every tag under its
      parent, at every depth. */
  lemma BuiltNests(tags: map<int, TagRow>, n: TagNode)
    requires Built(tags, n)
    ensures Elements(Rows(n.children)) == ChildRows(tags, n.id)
    ensures SortedBy(BySibling(), Rows(n.children))
    ensures forall i :: 0 <= i < |n.children| ==> Built(tags, n.children[i])
  {
    ChildFacts(tags, n.id);
  }

  /** Two siblings are different rows. */
  lemma SortedRowsDiffer(rows: seq<TagRow>, i: int, j: int)
    requires SortedBy(BySibling(), rows) && 0 <= i < j < |rows|
    ensures rows[i] != rows[j]
  {
    assert SiblingBefore(rows[i], rows[j]);
    LexIrreflexive(rows[i].name);
  }

  lemma ChildrenDisjoint(tags: map<int, TagRow>, k: int)
    requires Buildable(tags) && k in tags
    ensures DisjointReach(ParentRel(tags), Node(tags, k).children)
  {
    ChildEdges(tags, k);
    ParentPointers(tags);
    EdgesDisjoint(ParentRel(tags), k, Node(tags, k).children);
  }

  /** The children of `k` are tags whose parent is `k`, with distinct ids. */
  lemma ChildEdges(tags: map<int, TagRow>, k: int)
    requires Buildable(tags) && k in tags
    ensures forall i :: 0 <= i < |Node(tags, k).children| ==> (k, Node(tags, k).children[i].id) in ParentRel(tags)
    ensures forall i, j :: 0 <= i < j < |Node(tags, k).children| ==>
      Node(tags, k).children[i].id != Node(tags, k).children[j].id
  {
    var ns := Node(tags, k).children;
    var rows := Rows(ns);
    forall i | 0 <= i < |ns| ensures (k, ns[i].id) in ParentRel(tags) {
      assert rows[i] in Elements(rows);
    }
    forall i, j | 0 <= i < j < |ns| ensures ns[i].id != ns[j].id {
      SortedRowsDiffer(rows, i, j);
      assert rows[i] in Elements(rows) && rows[j] in Elements(rows);
    }
  }

  /** Distinct children of one parent share no descendant. */
  lemma EdgesDisjoint(rel: Rel, k: int, ns: seq<TagNode>)
    requires OneParent(rel) && Acyclic(rel)
    requires forall i :: 0 <= i < |ns| ==> (k, ns[i].id) in rel
    requires forall i, j :: 0 <= i < j < |ns| ==> ns[i].id != ns[j].id
    ensures DisjointReach(rel, ns)
  {
    forall i, j, z | 0 <= i < j < |ns| && z in Reach(rel, ns[i].id) ensures z !in Reach(rel, ns[j].id) {
      SiblingsDisjoint(rel, k, ns[i].id, ns[j].id, z);
    }
  }

  /** What a tag reaches besides itself lies below one of its children. */
  lemma ReachBelowChildren(tags: map<int, TagRow>, k: int, z: int)
    requires Buildable(tags) && k in tags
    requires z in Reach(ParentRel(tags), k) && z != k
    ensures z in Under(ParentRel(tags), Node(tags, k).children)
  {
    var rel := ParentRel(tags);
    var ns := Node(tags, k).children;
    ReachThroughChild(rel, k, z);
    var c :| (k, c) in rel && z in Reach(rel, c);
    assert tags[c] in ChildRows(tags, k);
    var i := RowIndex(ns, tags[c]);
    UnderIndex(rel, ns, i);
  }

  /** What a child reaches, its parent reaches, and the parent is not
      among it. */
  lemma ChildrenBelow(tags: map<int, TagRow>, k: int, z: int)
    requires Buildable(tags) && k in tags
    requires z in Under(ParentRel(tags), Node(tags, k).children)
    ensures z in Reach(ParentRel(tags), k) && z != k
  {
    var rel := ParentRel(tags);
    var ns := Node(tags, k).children;
    ChildFacts(tags, k);
    var i := UnderWitness(rel, ns, z);
    assert ChildOf(tags, k, ns[i]);
    ReachStep(rel, k, ns[i].id);
    ReachTrans(rel, k, ns[i].id);
  }

  /** What a tag reaches is itself and what its children reach. */
  lemma ReachSplit(tags: map<int, TagRow>, k: int)
    requires Buildable(tags) && k in tags
    ensures Reach(ParentRel(tags), k) == {k} + Under(ParentRel(tags), Node(tags, k).children)
    ensures k !in Under(ParentRel(tags), Node(tags, k).children)
  {
    var rel := ParentRel(tags);
    var under := Under(rel, Node(tags, k).children);
    var reach := Reach(rel, k);
    forall z | z in reach && z != k ensures z in under {
      ReachBelowChildren(tags, k, z);
    }
    forall z | z in under ensures z in reach && z != k {
      ChildrenBelow(tags, k, z);
    }
    SplitOff(reach, under, k);
  }

  /** A set holding `k` and, besides it, exactly the elements of `u`. */
  lemma SplitOff(r: set<int>, u: set<int>, k: int)
    requires k in r
    requires forall z :: z in r && z != k ==> z in u
    requires forall z :: z in u ==> z in r && z != k
    ensures r == {k} + u && k !in u
  {
    assert forall z :: z in r <==> z in {k} + u;
  }

  lemma ParentPointers(tags: map<int, TagRow>)
    ensures OneParent(ParentRel(tags))
  {
  }

  /** A tree lists exactly the tags its root reaches, each once. */
  lemma {:induction false} NodeCovers(tags: map<int, TagRow>, k: int)
    requires Buildable(tags) && k in tags
    ensures Elements(Preorder(Node(tags, k))) == Reach(ParentRel(tags), k)
    ensures Distinct(Preorder(Node(tags, k)))
    decreases |Reach(ParentRel(tags), k)|, 1
  {
    var ns := Node(tags, k).children;
    ChildFacts(tags, k);
    ChildrenDisjoint(tags, k);
    ListCovers(tags, ns, |Reach(ParentRel(tags), k)|);
    ReachSplit(tags, k);
    ElementsConcat([k], PreorderAll(ns));
    forall x | x in [k] ensures x !in PreorderAll(ns) {
      assert x !in Elements(PreorderAll(ns));
    }
    DistinctConcat([k], PreorderAll(ns));
  }

  /** A list of built trees with disjoint subtrees lists everything below
      them, each once. `bound` exceeds the size of every listed subtree. */
  lemma {:induction false} ListCovers(tags: map<int, TagRow>, ns: seq<TagNode>, bound: nat)
    requires BuiltBelow(tags, ns, bound)
    requires DisjointReach(ParentRel(tags), ns)
    ensures Elements(PreorderAll(ns)) == Under(ParentRel(tags), ns)
    ensures Distinct(PreorderAll(ns))
    decreases bound, 0, |ns|
  {
    var rel := ParentRel(tags);
    if ns != [] {
      BuiltBelowCons(tags, ns, bound);
      NodeCovers(tags, ns[0].id);
      DisjointTail(rel, ns);
      ListCovers(tags, ns[1..], bound);
      ConsCovers(rel, ns);
    }
  }

  /** Every tree of the list is built, and each subtree has fewer than
      `bound` tags. */
  predicate BuiltBelow(tags: map<int, TagRow>, ns: seq<TagNode>, bound: nat) {
    forall i :: 0 <= i < |ns| ==> Built(tags, ns[i]) && |Reach(ParentRel(tags), ns[i].id)| < bound
  }

  lemma BuiltBelowCons(tags: map<int, TagRow>, ns: seq<TagNode>, bound: nat)
    requires ns != [] && BuiltBelow(tags, ns, bound)
    ensures Buildable(tags) && ns[0].id in tags && ns[0] == Node(tags, ns[0].id)
    ensures |Reach(ParentRel(tags), ns[0].id)| < bound
    ensures BuiltBelow(tags, ns[1..], bound)
  {
    assert Built(tags, ns[0]);
    assert forall i :: 0 <= i < |ns[1..]| ==> ns[1..][i] == ns[i + 1];
  }

  /** A list covers what its head and its tail cover, once each, when the
      two share nothing. */
  lemma ConsCovers(rel: Rel, ns: seq<TagNode>)
    requires ns != []
    requires Elements(Preorder(ns[0])) == Reach(rel, ns[0].id) && Distinct(Preorder(ns[0]))
    requires Elements(PreorderAll(ns[1..])) == Under(rel, ns[1..]) && Distinct(PreorderAll(ns[1..]))
    requires forall z :: z in Reach(rel, ns[0].id) ==> z !in Under(rel, ns[1..])
    ensures Elements(PreorderAll(ns)) == Under(rel, ns) && Distinct(PreorderAll(ns))
  {
    DisjointConcat(Preorder(ns[0]), PreorderAll(ns[1..]));
  }

  /** Two listings without repeats and without common elements concatenate
      to a listing without repeats of their union. */
  lemma DisjointConcat(a: seq<int>, b: seq<int>)
    requires Distinct(a) && Distinct(b) && Elements(a) !! Elements(b)
    ensures Elements(a + b) == Elements(a) + Elements(b) && Distinct(a + b)
  {
    ElementsConcat(a, b);
    forall x | x in a ensures x !in b {
      assert x in Elements(a);
    }
    DistinctConcat(a, b);
  }

  /** The ancestors of `t`: the tags that reach it. */
  function Ancestors(tags: map<int, TagRow>, t: int): set<int> {
    set x | x in tags && t in Reach(ParentRel(tags), x)
  }

  /** Every tag lies below some top-level tag. */
  lemma {:induction false} HasRoot(tags: map<int, TagRow>, t: int) returns (r: int)
    requires Buildable(tags) && t in tags
    ensures IsRoot(tags, r) && t in Reach(ParentRel(tags), r)
    decreases |Ancestors(tags, t)|
  {
    var rel := ParentRel(tags);
    if IsRoot(tags, t) {
      r := t;
    } else {
      var p := tags[t].parentId.value;
      assert (p, t) in rel;
      ReachStep(rel, p, t);
      forall x | x in Ancestors(tags, p) ensures x in Ancestors(tags, t) {
        ReachTrans(rel, x, p);
      }
      assert t in Ancestors(tags, t) && t !in Ancestors(tags, p);
      StrictSubsetCard(Ancestors(tags, p), Ancestors(tags, t));
      r := HasRoot(tags, p);
      ReachTrans(rel, r, p);
    }
  }

  /** Whatever a tag reaches is a tag. */
  lemma ReachWithin(tags: map<int, TagRow>, k: int)
    requires k in tags
    ensures Reach(ParentRel(tags), k) <= tags.Keys
  {
  }

  /** Two different top-level tags share no descendant. */
  lemma RootsDisjoint(tags: map<int, TagRow>, a: int, b: int, z: int)
    requires Buildable(tags) && IsRoot(tags, a) && IsRoot(tags, b) && a != b
    ensures !(z in Reach(ParentRel(tags), a) && z in Reach(ParentRel(tags), b))
  {
    var rel := ParentRel(tags);
    if z in Reach(rel, a) && z in Reach(rel, b) {
      ParentPointers(tags);
      CommonDescendant(rel, a, b, z);
      if a in Reach(rel, b) {
        var p := ReachPredecessor(rel, b, a);
        ReachWithin(tags, b);
      } else {
        var p := ReachPredecessor(rel, a, b);
        ReachWithin(tags, a);
      }
    }
  }

  lemma ForestFacts(tags: map<int, TagRow>)
    requires Buildable(tags)
    ensures forall i :: 0 <= i < |Forest(tags)| ==>
      Built(tags, Forest(tags)[i]) && IsRoot(tags, Forest(tags)[i].id) && |Reach(ParentRel(tags), Forest(tags)[i].id)| < |tags.Keys| + 1
  {
    SiblingStrictTotal(RootRows(tags));
    var roots := SortSet(BySibling(), RootRows(tags));
    var f := Forest(tags);
    forall i | 0 <= i < |f| ensures Built(tags, f[i]) && IsRoot(tags, f[i].id) && |Reach(ParentRel(tags), f[i].id)| < |tags.Keys| + 1 {
      assert roots[i] in Elements(roots);
      assert f[i] == Node(tags, roots[i].id);
      ReachWithin(tags, f[i].id);
      SubsetCard(Reach(ParentRel(tags), f[i].id), tags.Keys);
    }
  }

  lemma ForestDisjoint(tags: map<int, TagRow>)
    requires Buildable(tags)
    ensures DisjointReach(ParentRel(tags), Forest(tags))
  {
    ForestRoots(tags);
    RootsDisjointAll(tags, Forest(tags));
  }

  /** The top-level nodes are top-level tags with distinct ids. */
  lemma ForestRoots(tags: map<int, TagRow>)
    requires Buildable(tags)
    ensures forall i :: 0 <= i < |Forest(tags)| ==> IsRoot(tags, Forest(tags)[i].id)
    ensures forall i, j :: 0 <= i < j < |Forest(tags)| ==> Forest(tags)[i].id != Forest(tags)[j].id
  {
    var f := Forest(tags);
    var rows := Rows(f);
    forall i | 0 <= i < |f| ensures IsRoot(tags, f[i].id) {
      assert rows[i] in Elements(rows);
    }
    forall i, j | 0 <= i < j < |f| ensures f[i].id != f[j].id {
      SortedRowsDiffer(rows, i, j);
      assert rows[i] in Elements(rows) && rows[j] in Elements(rows);
    }
  }

  /** Distinct top-level tags share no descendant. */
  lemma RootsDisjointAll(tags: map<int, TagRow>, ns: seq<TagNode>)
    requires Buildable(tags)
    requires forall i :: 0 <= i < |ns| ==> IsRoot(tags, ns[i].id)
    requires forall i, j :: 0 <= i < j < |ns| ==> ns[i].id != ns[j].id
    ensures DisjointReach(ParentRel(tags), ns)
  {
    forall i, j, z | 0 <= i < j < |ns| && z in Reach(ParentRel(tags), ns[i].id) ensures z !in Reach(ParentRel(tags), ns[j].id) {
      RootsDisjoint(tags, ns[i].id, ns[j].id, z);
    }
  }

  /** A tag lies below the top-level node its root ancestor heads. */
  lemma InForest(tags: map<int, TagRow>, t: int)
    requires Buildable(tags) && t in tags
    ensures t in Under(ParentRel(tags), Forest(tags))
  {
    var f := Forest(tags);
    var r := HasRoot(tags, t);
    assert tags[r] in RootRows(tags);
    var i := RowIndex(f, tags[r]);
    UnderIndex(ParentRel(tags), f, i);
  }

  lemma ForestUnder(tags: map<int, TagRow>)
    requires Buildable(tags)
    ensures Under(ParentRel(tags), Forest(tags)) == tags.Keys
  {
    var rel := ParentRel(tags);
    var f := Forest(tags);
    forall t | t in tags ensures t in Under(rel, f) {
      InForest(tags, t);
    }
    forall z | z in Under(rel, f) ensures z in tags {
      var i := UnderWitness(rel, f, z);
      ForestFacts(tags);
      ReachWithin(tags, f[i].id);
    }
  }

  /** `buildTagForest` places every tag exactly once: the preorder listing
      of the forest holds each tag id once and nothing else. */
  lemma ForestExactlyOnce(tags: map<int, TagRow>)
    requires Buildable(tags)
    ensures Elements(PreorderAll(Forest(tags))) == tags.Keys
    ensures Distinct(PreorderAll(Forest(tags)))
  {
    ForestFacts(tags);
    ForestDisjoint(tags);
    ListCovers(tags, Forest(tags), |tags.Keys| + 1);
    ForestUnder(tags);
  }

  // ---------------------------------------------------------------------------
  // Summaries

  datatype TagSummary = TagSummary(tag: TagRow, tree: TagNode, todoCount: nat)

  /** The rows of `tags` whose ids are in `keep`. */
  function Restrict(tags: map<int, TagRow>, keep: set<int>): (r: map<int, TagRow>)
    ensures forall k :: k in r <==> k in tags && k in keep
    ensures forall k :: k in r ==> r[k] == tags[k]
  {
    map k | k in tags && k in keep :: tags[k]
  }

  /** Fewer rows keep the forest buildable. */
  lemma RestrictBuildable(tags: map<int, TagRow>, keep: set<int>)
    requires Buildable(tags)
    ensures Buildable(Restrict(tags, keep))
  {
    assert ParentRel(Restrict(tags, keep)) <= ParentRel(tags);
    AcyclicSubset(ParentRel(Restrict(tags, keep)), ParentRel(tags));
  }

  /** Restricted to its own subtree, a tag reaches the same tags. */
  lemma RestrictSubtree(tags: map<int, TagRow>, id: int)
    requires Buildable(tags) && id in tags
    ensures Reach(ParentRel(Restrict(tags, Subtree(tags, id))), id) == Subtree(tags, id)
  {
    var small := ParentRel(Restrict(tags, Subtree(tags, id)));
    var rel := ParentRel(tags);
    assert small <= rel;
    ReachMono(small, rel, id);
    var r := Reach(small, id);
    forall p | p in rel && p.0 in r ensures p.1 in r {
      assert p.0 in Subtree(tags, id);
      assert p in small;
    }
    ReachLeast(rel, id, r);
  }

  /** The todos whose tag lies in the subtree of `id`. */
  function TaggedIn(db: Db, id: int): set<int> {
    set k | k in db.todos && InSubtree(db.tags, db.todos[k].tagId, id)
  }

  /** `getTagSummary(id)`: nothing for an unknown tag; otherwise the tag,
      the tree built from the rows of its subtree, and the number of todos
      tagged anywhere in that subtree. */
  function GetTagSummary(db: Db, id: int): (r: Option<TagSummary>)
    requires Buildable(db.tags)
    ensures r.None? <==> id !in db.tags
    ensures r.Some? ==> r.value.tag == db.tags[id] && r.value.todoCount == |TaggedIn(db, id)|
    ensures r.Some? ==> NodeRow(r.value.tree) == db.tags[id]
  {
    if id !in db.tags then None
    else
      var rows := Restrict(db.tags, Subtree(db.tags, id));
      RestrictBuildable(db.tags, Subtree(db.tags, id));
      Some(TagSummary(db.tags[id], Node(rows, id), |TaggedIn(db, id)|))
  }

  /** The summary tree holds exactly the tag and its descendants, each once. */
  lemma TagSummaryTree(db: Db, id: int)
    requires Buildable(db.tags) && id in db.tags
    ensures Elements(Preorder(GetTagSummary(db, id).value.tree)) == Subtree(db.tags, id)
    ensures Distinct(Preorder(GetTagSummary(db, id).value.tree))
  {
    var rows := Restrict(db.tags, Subtree(db.tags, id));
    RestrictBuildable(db.tags, Subtree(db.tags, id));
    NodeCovers(rows, id);
    RestrictSubtree(db.tags, id);
  }

  datatype AllTagsSummary = AllTagsSummary(tagTree: seq<TagNode>, todoCount: nat)

  /** The todos that carry a tag. */
  function Tagged(db: Db): set<int> {
    set k | k in db.todos && db.todos[k].tagId.Some?
  }

  /** `getAllTagsSummary`: the whole forest and the number of tagged todos. */
  function GetAllTagsSummary(db: Db): (r: AllTagsSummary)
    requires Buildable(db.tags)
    ensures r.todoCount == |Tagged(db)|
    ensures Elements(PreorderAll(r.tagTree)) == db.tags.Keys && Distinct(PreorderAll(r.tagTree))
  {
    ForestExactlyOnce(db.tags);
    AllTagsSummary(Forest(db.tags), |Tagged(db)|)
  }

  /** The overall count of tagged todos is at least each tag's own count. */
  lemma TagCountBounded(db: Db, id: int)
    requires Buildable(db.tags) && id in db.tags
    ensures GetTagSummary(db, id).value.todoCount <= GetAllTagsSummary(db).todoCount
  {
    forall k | k in TaggedIn(db, id) ensures k in Tagged(db) {
    }
    SubsetCard(TaggedIn(db, id), Tagged(db));
  }
}
