/**
 * The rows the explorer shows (src/components/FileNode.jsx, lines 196-213):
 * a `FileNode` renders its own row at `level`, and then, only when its
 * `children` array exists and `isOpen` is true, one `FileNode` per child at
 * `level + 1`. The top-level forest is rendered at level 0
 * (src/components/FileExplorer.jsx, lines 150-161).
 */
module Visible {
  import opened Tree

  datatype Row = Row(node: Node, level: nat)

  /** The rows rendered for a list of sibling nodes, in document order. */
  function VisibleRows(nodes: seq<Node>, level: nat): (rows: seq<Row>)
    decreases nodes, 1
    ensures forall row :: row in rows ==> row.level >= level
    ensures forall row :: row in rows ==> row.node.id in IdBag(nodes)
  {
    if nodes == [] then [] else NodeRows(nodes[0], level) + VisibleRows(nodes[1..], level)
  }

  /** The rows rendered by one `FileNode`: its own row first, then its open children. */
  function NodeRows(node: Node, level: nat): (rows: seq<Row>)
    decreases node, 2
    ensures forall row :: row in rows ==> row.level >= level
    ensures forall row :: row in rows ==> row.node.id in NodeIdBag(node)
  {
    [Row(node, level)] +
    match node.children
    case Present(cs) => if node.isOpen then VisibleRows(cs, level + 1) else []
    case Absent => []
  }

  /**
   * The explorer's rows: the forest at level 0. Every top-level node has a
   * row, every row shows a node whose id occurs in the forest, and there are
   * never more rows than nodes.
   */
  function Rows(treeData: seq<Node>): (rows: seq<Row>)
    ensures forall i :: 0 <= i < |treeData| ==> Row(treeData[i], 0) in rows
    ensures forall row :: row in rows ==> row.node.id in IdBag(treeData)
    ensures |rows| <= |IdBag(treeData)|
  {
    SiblingsAreVisible(treeData, 0);
    RowsAtMostNodes(treeData, 0);
    VisibleRows(treeData, 0)
  }

  /** There are never more rows than nodes. */
  lemma {:induction false} RowsAtMostNodes(nodes: seq<Node>, level: nat)
    decreases nodes, 1
    ensures |VisibleRows(nodes, level)| <= |IdBag(nodes)|
  {
    if nodes != [] {
      NodeRowsAtMostNodes(nodes[0], level);
      RowsAtMostNodes(nodes[1..], level);
    }
  }

  lemma {:induction false} NodeRowsAtMostNodes(node: Node, level: nat)
    decreases node, 2
    ensures |NodeRows(node, level)| <= |NodeIdBag(node)|
  {
    match node.children
    case Absent =>
    case Present(cs) => RowsAtMostNodes(cs, level + 1);
  }

  /** Every sibling of a rendered list gets its own row, at the list's level. */
  lemma {:induction false} SiblingsAreVisible(nodes: seq<Node>, level: nat)
    ensures forall i :: 0 <= i < |nodes| ==> Row(nodes[i], level) in VisibleRows(nodes, level)
  {
    if nodes != [] {
      SiblingsAreVisible(nodes[1..], level);
      assert NodeRows(nodes[0], level)[0] == Row(nodes[0], level);
      forall i | 1 <= i < |nodes|
        ensures Row(nodes[i], level) in VisibleRows(nodes, level)
      {
        assert nodes[i] == nodes[1..][i - 1];
      }
    }
  }

  /** The children of an open folder are rendered, one level deeper. */
  lemma OpenFolderShowsChildren(node: Node, level: nat)
    requires node.children.Present? && node.isOpen
    ensures forall c :: c in node.children.list ==> Row(c, level + 1) in NodeRows(node, level)
  {
    SiblingsAreVisible(node.children.list, level + 1);
  }

  /**
   * In a forest without duplicate ids, no descendant of a closed folder is
   * rendered, at any depth.
   */
  lemma {:induction false} ClosedFolderHidesDescendants(nodes: seq<Node>, level: nat, x: Node)
    decreases nodes, 1
    requires Unique(nodes)
    requires FindNodeById(nodes, x.id) == Some(x)
    requires !x.isOpen
    ensures forall row :: row in VisibleRows(nodes, level) ==> row.node.id !in IdBag(Kids(x))
  {
    var node, rest := nodes[0], nodes[1..];
    var hidden := IdBag(Kids(x));
    KidsIdBag(x);
    UniqueSplit(nodes);
    assert VisibleRows(nodes, level) == NodeRows(node, level) + VisibleRows(rest, level);
    if FindInNode(node, x.id) == Some(x) {
      FoundSubtreeInNode(node, x.id);
      NodeHidesDescendants(node, level, x);
      forall row | row in VisibleRows(rest, level)
        ensures row.node.id !in hidden
      {
        assert row.node.id in IdBag(rest);
      }
    } else {
      ClosedFolderHidesDescendants(rest, level, x);
      FoundSubtreeInForest(rest, x.id);
      forall row | row in NodeRows(node, level)
        ensures row.node.id !in hidden
      {
        assert row.node.id in NodeIdBag(node);
      }
    }
  }

  lemma {:induction false} NodeHidesDescendants(node: Node, level: nat, x: Node)
    decreases node, 2
    requires NodeUnique(node)
    requires FindInNode(node, x.id) == Some(x)
    requires !x.isOpen
    ensures forall row :: row in NodeRows(node, level) ==> row.node.id !in IdBag(Kids(x))
  {
    NodeUniqueSplit(node);
    if node.id == x.id {
      assert NodeRows(node, level) == [Row(node, level)];
    } else {
      var cs := node.children.list;
      var below := if node.isOpen then VisibleRows(cs, level + 1) else [];
      assert NodeRows(node, level) == [Row(node, level)] + below;
      HiddenBelowNode(node, x);
      if node.isOpen {
        ClosedFolderHidesDescendants(cs, level + 1, x);
      }
    }
  }

  /** A node other than `x` itself is not among `x`'s descendants. */
  lemma HiddenBelowNode(node: Node, x: Node)
    requires node.id != x.id
    requires node.id !in IdBag(Kids(node))
    requires FindInNode(node, x.id) == Some(x)
    ensures node.id !in IdBag(Kids(x))
  {
    FoundSubtreeInForest(node.children.list, x.id);
    KidsIdBag(x);
  }
}
