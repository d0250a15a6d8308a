/**
 * The sunburst hierarchy of `TreeDiagram.create_tree`: the hierarchy columns that exist in
 * the data, and the node lists built from the grouped rows, one node per distinct path
 * prefix, with its label and the id of its parent.
 */
module TreeDiagram {
  import opened Text

  /** `[col for col in hierarchy_columns if col in self.data.columns]`. */
  function FilterColumns(requested: seq<string>, available: seq<string>): (path: seq<string>)
    ensures forall c :: c in path <==> c in requested && c in available
    ensures |path| <= |requested|
  {
    if requested == [] then []
    else if requested[0] in available then [requested[0]] + FilterColumns(requested[1..], available)
    else FilterColumns(requested[1..], available)
  }

  /** The filter keeps the requested order: filtering a concatenation concatenates the filtered parts. */
  lemma {:induction false} FilterColumnsAppend(a: seq<string>, b: seq<string>, available: seq<string>)
    ensures FilterColumns(a + b, available) == FilterColumns(a, available) + FilterColumns(b, available)
  {
    if a == [] {
      assert a + b == b;
    } else {
      assert (a + b)[0] == a[0];
      assert (a + b)[1..] == a[1..] + b;
      FilterColumnsAppend(a[1..], b, available);
    }
  }

  /** Filtering the path again keeps all of it. */
  lemma {:induction false} FilterColumnsIdempotent(requested: seq<string>, available: seq<string>)
    ensures FilterColumns(FilterColumns(requested, available), available) == FilterColumns(requested, available)
  {
    if requested != [] {
      FilterColumnsIdempotent(requested[1..], available);
    }
  }

  /** The id of the node at depth `d` of a row: its first `d + 1` labels joined with `/`. */
  function PathId(row: seq<string>, d: nat): (id: string)
    requires d < |row|
    ensures d == 0 ==> id == row[0]
  {
    Join("/", row[..d + 1])
  }

  /** The parent id of the node at depth `d`: the row's first `d` labels joined, or "" at depth 0. */
  function ParentId(row: seq<string>, d: nat): (parent: string)
    requires d < |row|
    ensures d == 0 ==> parent == ""
  {
    if d > 0 then Join("/", row[..d]) else ""
  }

  /** Below the root level a node's parent is the node one level up, and its id extends the parent's by `/` and its label. */
  lemma ParentIsPathUp(row: seq<string>, d: nat)
    requires 0 < d < |row|
    ensures ParentId(row, d) == PathId(row, d - 1)
    ensures PathId(row, d) == ParentId(row, d) + "/" + row[d]
  {
    assert row[..d + 1][..d] == row[..d];
    assert row[..(d - 1) + 1] == row[..d];
  }

  /** The node for depth `d` of row `r`: its id, its label (the row's label at `d`) and its parent's id. */
  ghost predicate NodeAt(rows: seq<seq<string>>, r: nat, d: nat, id: string, name: string, parent: string)
  {
    && r < |rows| && d < |rows[r]|
    && id == PathId(rows[r], d)
    && name == rows[r][d]
    && parent == ParentId(rows[r], d)
  }

  /** `ids[k]`, `labels[k]` and `parents[k]` describe the node of some row at some depth. */
  ghost predicate IsNode(rows: seq<seq<string>>, id: string, name: string, parent: string)
  {
    exists r: nat, d: nat :: NodeAt(rows, r, d, id, name, parent)
  }

  /** No id occurs twice. */
  predicate Distinct(ids: seq<string>)
  {
    forall i, j :: 0 <= i < j < |ids| ==> ids[i] != ids[j]
  }

  /** A node of the sunburst: its id, its label and the id of its parent. */
  datatype Node = Node(id: string, name: string, parent: string)

  /** The node that depth `d` of `row` describes. */
  function NodeOf(row: seq<string>, d: nat): (n: Node)
    requires d < |row|
    ensures d == 0 ==> n.parent == ""
  {
    Node(PathId(row, d), row[d], ParentId(row, d))
  }

  /** The nodes of depths 0 .. n - 1 of one row, in the order the inner loop visits them. */
  function RowVisits(row: seq<string>, n: nat): (vs: seq<Node>)
    requires n <= |row|
    ensures |vs| == n
    ensures forall d :: 0 <= d < n ==> vs[d] == NodeOf(row, d)
  {
    if n == 0 then [] else RowVisits(row, n - 1) + [NodeOf(row, n - 1)]
  }

  /** The nodes of every row, row by row and within a row depth by depth. */
  function Visits(rows: seq<seq<string>>): seq<Node>
  {
    if rows == [] then [] else Visits(rows[..|rows| - 1]) + RowVisits(rows[|rows| - 1], |rows[|rows| - 1]|)
  }

  /** The visits made before depth `i` of row `r`. */
  function Visited(rows: seq<seq<string>>, r: nat, i: nat): seq<Node>
    requires r <= |rows| && (r < |rows| ==> i <= |rows[r]|)
  {
    Visits(rows[..r]) + if r < |rows| then RowVisits(rows[r], i) else []
  }

  /** The ids of a node list. */
  function Ids(ns: seq<Node>): (ids: seq<string>)
    ensures |ids| == |ns| && forall k :: 0 <= k < |ns| ==> ids[k] == ns[k].id
  {
    seq(|ns|, k requires 0 <= k < |ns| => ns[k].id)
  }

  /** The labels of a node list. */
  function Labels(ns: seq<Node>): (labels: seq<string>)
    ensures |labels| == |ns| && forall k :: 0 <= k < |ns| ==> labels[k] == ns[k].name
  {
    seq(|ns|, k requires 0 <= k < |ns| => ns[k].name)
  }

  /** The parent ids of a node list. */
  function Parents(ns: seq<Node>): (parents: seq<string>)
    ensures |parents| == |ns| && forall k :: 0 <= k < |ns| ==> parents[k] == ns[k].parent
  {
    seq(|ns|, k requires 0 <= k < |ns| => ns[k].parent)
  }

  /** The visits, each kept only when its id is not among the ids kept before it. */
  function FirstOccurrences(vs: seq<Node>): seq<Node>
  {
    if vs == [] then []
    else
      var kept := FirstOccurrences(vs[..|vs| - 1]);
      var n := vs[|vs| - 1];
      if n.id in Ids(kept) then kept else kept + [n]
  }

  /** The node list `create_tree` builds from the grouped rows. */
  function TreeNodes(rows: seq<seq<string>>): seq<Node>
  {
    FirstOccurrences(Visits(rows))
  }

  /** One more depth of row `r` extends the visits by its node. */
  lemma VisitedNext(rows: seq<seq<string>>, r: nat, i: nat)
    requires r < |rows| && i < |rows[r]|
    ensures Visited(rows, r, i + 1) == Visited(rows, r, i) + [NodeOf(rows[r], i)]
  {
  }

  /** Once row `r` is done, the visits are those of the rows before `r + 1`. */
  lemma VisitedRow(rows: seq<seq<string>>, r: nat)
    requires r < |rows|
    ensures Visited(rows, r + 1, 0) == Visited(rows, r, |rows[r]|)
  {
    assert rows[..r + 1][..r] == rows[..r];
  }

  /** Keeping the first occurrences of one visit more. */
  lemma FirstOccurrencesNext(vs: seq<Node>, n: Node)
    ensures FirstOccurrences(vs + [n]) ==
      if n.id in Ids(FirstOccurrences(vs)) then FirstOccurrences(vs) else FirstOccurrences(vs) + [n]
  {
    assert (vs + [n])[..|vs|] == vs;
  }

  /** Every visit's id is kept, and no id is kept twice. */
  lemma {:induction false} FirstOccurrencesCover(vs: seq<Node>)
    ensures forall j :: 0 <= j < |vs| ==> vs[j].id in Ids(FirstOccurrences(vs))
    ensures Distinct(Ids(FirstOccurrences(vs)))
    decreases |vs|
  {
    if vs != [] {
      var init, n := vs[..|vs| - 1], vs[|vs| - 1];
      assert vs == init + [n];
      FirstOccurrencesCover(init);
      FirstOccurrencesNext(init, n);
      CoverStep(vs, init, n, FirstOccurrences(init), FirstOccurrences(vs));
    } else {
      assert FirstOccurrences(vs) == [];
    }
  }

  /** One more visit, kept exactly when its id is new, keeps every id covered once. */
  lemma CoverStep(vs: seq<Node>, init: seq<Node>, n: Node, kept: seq<Node>, kept': seq<Node>)
    requires vs == init + [n]
    requires forall j :: 0 <= j < |init| ==> init[j].id in Ids(kept)
    requires Distinct(Ids(kept))
    requires kept' == if n.id in Ids(kept) then kept else kept + [n]
    ensures forall j :: 0 <= j < |vs| ==> vs[j].id in Ids(kept')
    ensures Distinct(Ids(kept'))
  {
    ListsSnoc(kept, n);
    forall j | 0 <= j < |vs| ensures vs[j].id in Ids(kept') {
      if j < |init| {
        assert vs[j] == init[j];
      }
    }
  }

  /** Visit `j` is the first with its id. */
  ghost predicate FirstVisit(vs: seq<Node>, j: nat)
    requires j < |vs|
  {
    forall j' :: 0 <= j' < j ==> vs[j'].id != vs[j].id
  }

  /** A first visit stays first when more visits follow. */
  lemma FirstVisitExtends(init: seq<Node>, n: Node, j: nat)
    requires j < |init| && FirstVisit(init, j)
    ensures FirstVisit(init + [n], j)
  {
    var vs := init + [n];
    forall j' | 0 <= j' < j ensures vs[j'].id != vs[j].id {
      assert vs[j'] == init[j'] && vs[j] == init[j];
    }
  }

  /** A visit whose id no earlier visit has is a first visit. */
  lemma FirstVisitLast(init: seq<Node>, n: Node)
    requires forall j :: 0 <= j < |init| ==> init[j].id != n.id
    ensures FirstVisit(init + [n], |init|)
  {
    var vs := init + [n];
    forall j' | 0 <= j' < |init| ensures vs[j'].id != vs[|init|].id {
      assert vs[j'] == init[j'];
    }
  }

  /** Each kept node is the first visit with its id: its label and parent are those of that first occurrence. */
  lemma {:induction false} FirstOccurrencesFirst(vs: seq<Node>, k: nat)
    requires k < |FirstOccurrences(vs)|
    ensures exists j: nat :: j < |vs| && vs[j] == FirstOccurrences(vs)[k] && FirstVisit(vs, j)
    decreases |vs|
  {
    var init, n := vs[..|vs| - 1], vs[|vs| - 1];
    assert vs == init + [n];
    FirstOccurrencesNext(init, n);
    var kept := FirstOccurrences(init);
    if k < |kept| {
      FirstOccurrencesFirst(init, k);
      var j: nat :| j < |init| && init[j] == kept[k] && FirstVisit(init, j);
      FirstVisitExtends(init, n, j);
      assert vs[j] == init[j] == FirstOccurrences(vs)[k];
    } else {
      assert n.id !in Ids(kept) && FirstOccurrences(vs) == kept + [n];
      FirstOccurrencesCover(init);
      assert forall j :: 0 <= j < |init| ==> init[j].id != n.id;
      FirstVisitLast(init, n);
      var j: nat := |init|;
      assert j < |vs| && vs[j] == FirstOccurrences(vs)[k] && FirstVisit(vs, j);
    }
  }

  /** Every visit with a parent comes after a visit whose id is that parent. */
  ghost predicate ParentsEarlier(vs: seq<Node>)
  {
    forall j :: 0 <= j < |vs| && vs[j].parent != "" ==> exists j' :: 0 <= j' < j && vs[j'].id == vs[j].parent
  }

  /** Every node with a parent comes after a node whose id is that parent. */
  ghost predicate ParentsListedFirst(ns: seq<Node>)
  {
    forall k :: 0 <= k < |ns| && ns[k].parent != "" ==> ns[k].parent in Ids(ns)[..k]
  }

  /** Dropping the last visit keeps every parent visited first; the last visit's parent is an earlier id. */
  lemma ParentsEarlierInit(init: seq<Node>, n: Node)
    requires ParentsEarlier(init + [n])
    ensures ParentsEarlier(init)
    ensures n.parent != "" ==> exists j :: 0 <= j < |init| && init[j].id == n.parent
  {
    var vs := init + [n];
    forall j | 0 <= j < |init| && init[j].parent != "" ensures exists j' :: 0 <= j' < j && init[j'].id == init[j].parent {
      assert vs[j] == init[j];
      var j' :| 0 <= j' < j && vs[j'].id == vs[j].parent;
      assert init[j'] == vs[j'];
    }
    if n.parent != "" {
      assert vs[|init|] == n;
      var j' :| 0 <= j' < |init| && vs[j'].id == n.parent;
      assert init[j'] == vs[j'];
    }
  }

  /** Appending a node whose parent is already listed keeps every parent listed first. */
  lemma ParentsListedFirstSnoc(ns: seq<Node>, n: Node)
    requires ParentsListedFirst(ns)
    requires n.parent != "" ==> n.parent in Ids(ns)
    ensures ParentsListedFirst(ns + [n])
  {
    var ns' := ns + [n];
    forall k | 0 <= k < |ns'| && ns'[k].parent != "" ensures ns'[k].parent in Ids(ns')[..k] {
      if k < |ns| {
        assert ns'[k] == ns[k];
        assert Ids(ns')[..k] == Ids(ns)[..k];
      } else {
        assert Ids(ns')[..k] == Ids(ns);
      }
    }
  }

  /** When every visit's parent is visited first, every kept node's parent is kept before it. */
  lemma {:induction false} FirstOccurrencesParents(vs: seq<Node>)
    requires ParentsEarlier(vs)
    ensures ParentsListedFirst(FirstOccurrences(vs))
    decreases |vs|
  {
    if vs != [] {
      var init, n := vs[..|vs| - 1], vs[|vs| - 1];
      assert vs == init + [n];
      ParentsEarlierInit(init, n);
      FirstOccurrencesParents(init);
      FirstOccurrencesCover(init);
      FirstOccurrencesNext(init, n);
      if n.id !in Ids(FirstOccurrences(init)) {
        ParentsListedFirstSnoc(FirstOccurrences(init), n);
      }
    } else {
      assert FirstOccurrences(vs) == [];
    }
  }


  /** Each visit of one row other than its root has its parent visited just before it. */
  lemma RowParentsEarlier(row: seq<string>, n: nat)
    requires n <= |row|
    ensures ParentsEarlier(RowVisits(row, n))
  {
    var vs := RowVisits(row, n);
    forall j | 0 <= j < |vs| && vs[j].parent != "" ensures exists j' :: 0 <= j' < j && vs[j'].id == vs[j].parent {
      ParentIsPathUp(row, j);
      assert vs[j - 1].id == vs[j].parent;
    }
  }

  /** Parents visited first in two runs of visits stay visited first in their concatenation. */
  lemma ParentsEarlierAppend(a: seq<Node>, b: seq<Node>)
    requires ParentsEarlier(a) && ParentsEarlier(b)
    ensures ParentsEarlier(a + b)
  {
    var vs := a + b;
    forall j | 0 <= j < |vs| && vs[j].parent != "" ensures exists j' :: 0 <= j' < j && vs[j'].id == vs[j].parent {
      if j < |a| {
        var j' :| 0 <= j' < j && a[j'].id == a[j].parent;
        assert vs[j'] == a[j'];
      } else {
        assert vs[j] == b[j - |a|];
        var j' :| 0 <= j' < j - |a| && b[j'].id == b[j - |a|].parent;
        assert vs[|a| + j'] == b[j'];
      }
    }
  }

  /** In the visits of all rows, every parent is visited before its child. */
  lemma {:induction false} VisitsParentsEarlier(rows: seq<seq<string>>)
    ensures ParentsEarlier(Visits(rows))
    decreases |rows|
  {
    if rows != [] {
      var last := rows[|rows| - 1];
      VisitsParentsEarlier(rows[..|rows| - 1]);
      RowParentsEarlier(last, |last|);
      ParentsEarlierAppend(Visits(rows[..|rows| - 1]), RowVisits(last, |last|));
    }
  }

  /** The visits of all rows: those of every row but the last, then the last row's. */
  lemma VisitsSplit(rows: seq<seq<string>>)
    requires rows != []
    ensures Visits(rows) == Visits(rows[..|rows| - 1]) + RowVisits(rows[|rows| - 1], |rows[|rows| - 1]|)
  {
  }

  /** Every visit is the node of some row at some depth. */
  lemma {:induction false} VisitsAreNodes(rows: seq<seq<string>>)
    ensures forall j :: 0 <= j < |Visits(rows)| ==>
      exists r: nat, d: nat :: r < |rows| && d < |rows[r]| && Visits(rows)[j] == NodeOf(rows[r], d)
    decreases |rows|
  {
    if rows != [] {
      var init, last := rows[..|rows| - 1], rows[|rows| - 1];
      VisitsSplit(rows);
      VisitsAreNodes(init);
      var vs, front := Visits(rows), Visits(init);
      forall j | 0 <= j < |vs| ensures exists r: nat, d: nat :: r < |rows| && d < |rows[r]| && vs[j] == NodeOf(rows[r], d) {
        if j < |front| {
          assert vs[j] == front[j];
          var r: nat, d: nat :| r < |init| && d < |init[r]| && front[j] == NodeOf(init[r], d);
          assert rows[r] == init[r];
          assert r < |rows| && d < |rows[r]| && vs[j] == NodeOf(rows[r], d);
        } else {
          var d := j - |front|;
          assert vs[j] == RowVisits(last, |last|)[d] == NodeOf(last, d);
          assert rows[|rows| - 1] == last;
          var r: nat := |rows| - 1;
          assert r < |rows| && d < |rows[r]| && vs[j] == NodeOf(rows[r], d);
        }
      }
    } else {
      assert Visits(rows) == [];
    }
  }

  /** The node of depth `d` of row `r` is visited. */
  lemma {:induction false} NodeVisited(rows: seq<seq<string>>, r: nat, d: nat)
    requires r < |rows| && d < |rows[r]|
    ensures NodeOf(rows[r], d) in Visits(rows)
    decreases |rows|
  {
    var init, last := rows[..|rows| - 1], rows[|rows| - 1];
    VisitsSplit(rows);
    if r == |rows| - 1 {
      assert RowVisits(last, |last|)[d] == NodeOf(rows[r], d);
    } else {
      assert init[r] == rows[r];
      NodeVisited(init, r, d);
    }
  }

  /** Appending a node appends its id, label and parent to the three lists. */
  lemma ListsSnoc(ns: seq<Node>, n: Node)
    ensures Ids(ns + [n]) == Ids(ns) + [n.id]
    ensures Labels(ns + [n]) == Labels(ns) + [n.name]
    ensures Parents(ns + [n]) == Parents(ns) + [n.parent]
  {
    assert Ids(ns + [n]) == Ids(ns) + [n.id];
    assert Labels(ns + [n]) == Labels(ns) + [n.name];
    assert Parents(ns + [n]) == Parents(ns) + [n.parent];
  }

  /** The tree's ids are distinct, and every prefix of every row is one of them. */
  lemma TreeIdsCover(rows: seq<seq<string>>)
    ensures Distinct(Ids(TreeNodes(rows)))
    ensures forall r, d :: 0 <= r < |rows| && 0 <= d < |rows[r]| ==> PathId(rows[r], d) in Ids(TreeNodes(rows))
  {
    var vs := Visits(rows);
    FirstOccurrencesCover(vs);
    forall r, d | 0 <= r < |rows| && 0 <= d < |rows[r]| ensures PathId(rows[r], d) in Ids(TreeNodes(rows)) {
      NodeVisited(rows, r, d);
      var j :| 0 <= j < |vs| && vs[j] == NodeOf(rows[r], d);
    }
  }

  /** Every node of the tree is the node of some row at some depth, and a child's id extends its parent's. */
  lemma TreeNodesAreNodes(rows: seq<seq<string>>)
    ensures forall k :: 0 <= k < |TreeNodes(rows)| ==>
      IsNode(rows, TreeNodes(rows)[k].id, TreeNodes(rows)[k].name, TreeNodes(rows)[k].parent)
    ensures forall k :: 0 <= k < |TreeNodes(rows)| && TreeNodes(rows)[k].parent != "" ==>
      TreeNodes(rows)[k].id == TreeNodes(rows)[k].parent + "/" + TreeNodes(rows)[k].name
  {
    var vs, t := Visits(rows), TreeNodes(rows);
    VisitsAreNodes(rows);
    forall k | 0 <= k < |t| ensures IsNode(rows, t[k].id, t[k].name, t[k].parent) && (t[k].parent != "" ==> t[k].id == t[k].parent + "/" + t[k].name) {
      FirstOccurrencesFirst(vs, k);
      var j: nat :| j < |vs| && vs[j] == t[k] && FirstVisit(vs, j);
      var r: nat, d: nat :| r < |rows| && d < |rows[r]| && vs[j] == NodeOf(rows[r], d);
      assert NodeAt(rows, r, d, t[k].id, t[k].name, t[k].parent);
      if d > 0 {
        ParentIsPathUp(rows[r], d);
      }
    }
  }

  /** Every parent in the tree is listed before its child. */
  lemma TreeParentsFirst(rows: seq<seq<string>>)
    ensures forall k :: 0 <= k < |TreeNodes(rows)| && TreeNodes(rows)[k].parent != "" ==>
      TreeNodes(rows)[k].parent in Ids(TreeNodes(rows))[..k]
  {
    VisitsParentsEarlier(rows);
    FirstOccurrencesParents(Visits(rows));
    assert ParentsListedFirst(TreeNodes(rows));
  }

  /** The visits of the rows [["a/b"], ["a", "b"]]: two ids "a/b", with different parents. */
  lemma AmbiguousRowsVisits()
    ensures Visits([["a/b"], ["a", "b"]]) == [Node("a/b", "a/b", ""), Node("a", "a", ""), Node("a/b", "b", "a")]
  {
    var rows := [["a/b"], ["a", "b"]];
    assert Join("/", ["a", "b"]) == "a/b" by {
      assert ["a", "b"][..1] == ["a"];
    }
    assert ["a", "b"][..2] == ["a", "b"];
    assert ["a", "b"][..1] == ["a"];
    assert RowVisits(["a", "b"], 2) == [Node("a", "a", ""), Node("a/b", "b", "a")];
    VisitsSplit(rows);
    assert rows[..1] == [["a/b"]];
    VisitsSplit([["a/b"]]);
    assert [["a/b"]][..0] == [];
  }

  /**
   * A row whose single column already holds "a/b" comes first: the later row ["a", "b"]
   * adds only "a", since its second prefix "a/b" is already an id.
   */
  lemma FirstOccurrenceWins()
    ensures TreeNodes([["a/b"], ["a", "b"]]) == [Node("a/b", "a/b", ""), Node("a", "a", "")]
  {
    var first, second, third := Node("a/b", "a/b", ""), Node("a", "a", ""), Node("a/b", "b", "a");
    AmbiguousRowsVisits();
    assert "a/b" != "a" by {
      assert |"a/b"| != |"a"|;
    }
    LaterDuplicateDropped(first, second, third);
    assert TreeNodes([["a/b"], ["a", "b"]]) == FirstOccurrences([first, second, third]);
  }

  /** Of three visits whose first two ids differ and whose last repeats the first, the last is dropped. */
  lemma LaterDuplicateDropped(first: Node, second: Node, third: Node)
    requires first.id != second.id && third.id == first.id
    ensures FirstOccurrences([first, second, third]) == [first, second]
  {
    FirstTwoKept(first, second);
    FirstOccurrencesNext([first, second], third);
    ListsSnoc([first], second);
    ListsSnoc([], first);
    assert Ids([first, second]) == [first.id, second.id] by {
      assert [first] + [second] == [first, second];
      assert [] + [first] == [first];
    }
    assert [first, second] + [third] == [first, second, third];
  }

  /** Two visits with different ids are both kept. */
  lemma FirstTwoKept(first: Node, second: Node)
    requires first.id != second.id
    ensures FirstOccurrences([first, second]) == [first, second]
  {
    FirstOccurrencesNext([], first);
    assert [] + [first] == [first];
    FirstOccurrencesNext([first], second);
    assert Ids([first]) == [first.id];
    assert [first] + [second] == [first, second];
  }

  /**
   * `create_tree`'s loop over the grouped rows: for every row and every depth, the id of
   * the prefix up to that depth is added, with its label and parent, unless already present.
   * The lists are exactly those of `TreeNodes`: first occurrences, row by row, depth by depth.
   */
  method CreateTree(rows: seq<seq<string>>) returns (ids: seq<string>, labels: seq<string>, parents: seq<string>)
    ensures ids == Ids(TreeNodes(rows)) && labels == Labels(TreeNodes(rows)) && parents == Parents(TreeNodes(rows))
    ensures |ids| == |labels| == |parents|
    ensures Distinct(ids)
    ensures forall r, d :: 0 <= r < |rows| && 0 <= d < |rows[r]| ==> PathId(rows[r], d) in ids
    ensures forall k :: 0 <= k < |ids| ==> IsNode(rows, ids[k], labels[k], parents[k])
    ensures forall k :: 0 <= k < |ids| && parents[k] != "" ==> parents[k] in ids[..k]
    ensures forall k :: 0 <= k < |ids| && parents[k] != "" ==> ids[k] == parents[k] + "/" + labels[k]
  {
    ids, labels, parents := [], [], [];
    ghost var nodes: seq<Node> := [];
    var r := 0;
    while r < |rows|
      invariant 0 <= r <= |rows|
      invariant nodes == FirstOccurrences(Visited(rows, r, 0))
      invariant ids == Ids(nodes) && labels == Labels(nodes) && parents == Parents(nodes)
    {
      var row := rows[r];
      var i := 0;
      while i < |row|
        invariant 0 <= i <= |row|
        invariant nodes == FirstOccurrences(Visited(rows, r, i))
        invariant ids == Ids(nodes) && labels == Labels(nodes) && parents == Parents(nodes)
      {
        var idPath := Join("/", row[..i + 1]);
        var parentPath := Join("/", row[..i]);
        ghost var n := NodeOf(row, i);
        assert n.id == idPath && n.name == row[i] && n.parent == if i > 0 then parentPath else "";
        VisitedNext(rows, r, i);
        FirstOccurrencesNext(Visited(rows, r, i), n);
        ListsSnoc(nodes, n);
        if idPath !in ids {
          ids := ids + [idPath];
          labels := labels + [row[i]];
          parents := parents + [if i > 0 then parentPath else ""];
          nodes := nodes + [n];
        }
        i := i + 1;
      }
      VisitedRow(rows, r);
      r := r + 1;
    }
    assert rows[..r] == rows;
    assert Visited(rows, r, 0) == Visits(rows);
    TreeIdsCover(rows);
    TreeNodesAreNodes(rows);
    TreeParentsFirst(rows);
  }
}
