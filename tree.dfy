/**
 * The in-memory file/folder tree of the explorer and the four pure helpers
 * that rewrite it by node id (src/components/FileExplorer.jsx).
 *
 * The tree is an ordered forest of nodes. Every helper returns a new forest;
 * none changes its input.
 */
module Tree {

  type Id = string

  datatype Option<T> = None | Some(value: T)

  datatype Kind = File | Folder

  /** A node's `children` property: `undefined` (files) or an array (folders). */
  datatype Children = Absent | Present(list: seq<Node>)

  datatype Node = Node(id: Id, name: string, kind: Kind, isOpen: bool, isEditing: bool, children: Children)

  /** `node.children || []` */
  function Kids(node: Node): seq<Node>
  {
    match node.children
    case Absent => []
    case Present(cs) => cs
  }

  // ---------------------------------------------------------------------------
  // Ids occurring in a forest, at any depth
  // ---------------------------------------------------------------------------

  /** The ids of every node of the forest, at any depth, with multiplicity. */
  function IdBag(nodes: seq<Node>): multiset<Id>
    decreases nodes, 1
  {
    if nodes == [] then multiset{} else NodeIdBag(nodes[0]) + IdBag(nodes[1..])
  }

  /** The ids of a node and of all of its descendants. */
  function NodeIdBag(node: Node): multiset<Id>
    decreases node, 2
  {
    multiset{node.id} + match node.children
      case Absent => multiset{}
      case Present(cs) => IdBag(cs)
  }

  lemma KidsIdBag(node: Node)
    ensures NodeIdBag(node) == multiset{node.id} + IdBag(Kids(node))
  {
  }

  /** No id occurs twice anywhere in the forest. */
  ghost predicate Unique(nodes: seq<Node>)
  {
    forall x :: IdBag(nodes)[x] <= 1
  }

  /** No id occurs twice in a node's subtree. */
  ghost predicate NodeUnique(node: Node)
  {
    forall x :: NodeIdBag(node)[x] <= 1
  }

  lemma UniqueSplit(nodes: seq<Node>)
    requires Unique(nodes) && nodes != []
    ensures NodeUnique(nodes[0]) && Unique(nodes[1..])
    ensures NodeIdBag(nodes[0]) !! IdBag(nodes[1..])
  {
    assert IdBag(nodes) == NodeIdBag(nodes[0]) + IdBag(nodes[1..]);
    forall x ensures NodeIdBag(nodes[0])[x] <= 1 && IdBag(nodes[1..])[x] <= 1 {
      assert IdBag(nodes)[x] <= 1;
    }
    forall x | x in NodeIdBag(nodes[0]) ensures x !in IdBag(nodes[1..]) {
      assert IdBag(nodes)[x] <= 1;
    }
  }

  lemma NodeUniqueSplit(node: Node)
    requires NodeUnique(node)
    ensures Unique(Kids(node)) && node.id !in IdBag(Kids(node))
  {
    KidsIdBag(node);
    forall x ensures IdBag(Kids(node))[x] <= 1 {
      assert NodeIdBag(node)[x] <= 1;
    }
    assert NodeIdBag(node)[node.id] <= 1;
  }

  lemma {:induction false} IdBagConcat(a: seq<Node>, b: seq<Node>)
    ensures IdBag(a + b) == IdBag(a) + IdBag(b)
  {
    if a == [] {
      assert a + b == b;
    } else {
      assert (a + b)[0] == a[0];
      assert (a + b)[1..] == a[1..] + b;
      IdBagConcat(a[1..], b);
    }
  }

  // ---------------------------------------------------------------------------
  // findNodeById
  // ---------------------------------------------------------------------------

  /**
   * `findNodeById`: a depth-first walk over the forest that returns the first
   * node, in pre-order, whose id is `id`, or None (`null`).
   */
  function FindNodeById(nodes: seq<Node>, id: Id): (r: Option<Node>)
    decreases nodes, 1
    ensures r.Some? <==> id in IdBag(nodes)
    ensures r.Some? ==> r.value.id == id
  {
    if nodes == [] then None
    else
      var result := FindInNode(nodes[0], id);
      if result.Some? then result else FindNodeById(nodes[1..], id)
  }

  /** One iteration of the loop in `findNodeById`: the node itself, then its children. */
  function FindInNode(node: Node, id: Id): (r: Option<Node>)
    decreases node, 2
    ensures r.Some? <==> id in NodeIdBag(node)
    ensures r.Some? ==> r.value.id == id
  {
    if node.id == id then Some(node)
    else match node.children
      case Absent => None
      case Present(cs) => FindNodeById(cs, id)
  }

  /** Every node of the forest in pre-order (a node before its children). */
  function PreOrder(nodes: seq<Node>): seq<Node>
    decreases nodes, 1
  {
    if nodes == [] then [] else NodePreOrder(nodes[0]) + PreOrder(nodes[1..])
  }

  function NodePreOrder(node: Node): seq<Node>
    decreases node, 2
  {
    [node] + match node.children
      case Absent => []
      case Present(cs) => PreOrder(cs)
  }

  /** Linear search: the first element of a flat list with id `id`. */
  function FirstWithId(s: seq<Node>, id: Id): (r: Option<Node>)
    ensures r.None? <==> forall k :: 0 <= k < |s| ==> s[k].id != id
    ensures r.Some? ==> exists k :: 0 <= k < |s| && s[k] == r.value && r.value.id == id &&
                                    forall j :: 0 <= j < k ==> s[j].id != id
  {
    if s == [] then None
    else if s[0].id == id then Some(s[0])
    else
      var r := FirstWithId(s[1..], id);
      assert r.Some? ==> exists k :: 0 <= k < |s| - 1 && s[1..][k] == r.value && r.value.id == id &&
                                     forall j :: 0 <= j < k ==> s[1..][j].id != id;
      if r.Some? then
        var k :| 0 <= k < |s| - 1 && s[1..][k] == r.value && r.value.id == id &&
                 forall j :: 0 <= j < k ==> s[1..][j].id != id;
        assert s[k + 1] == r.value && forall j :: 0 <= j < k + 1 ==> s[j].id != id;
        r
      else r
  }

  lemma {:induction false} FirstWithIdConcat(a: seq<Node>, b: seq<Node>, id: Id)
    ensures FirstWithId(a + b, id) == if FirstWithId(a, id).Some? then FirstWithId(a, id) else FirstWithId(b, id)
  {
    if a == [] {
      assert a + b == b;
    } else {
      assert (a + b)[0] == a[0];
      assert (a + b)[1..] == a[1..] + b;
      FirstWithIdConcat(a[1..], b, id);
    }
  }

  /** `findNodeById` returns exactly the first pre-order node carrying the id. */
  lemma {:induction false} FindIsFirstInPreOrder(nodes: seq<Node>, id: Id)
    decreases nodes, 1
    ensures FindNodeById(nodes, id) == FirstWithId(PreOrder(nodes), id)
  {
    if nodes != [] {
      FindInNodeIsFirstInPreOrder(nodes[0], id);
      FindIsFirstInPreOrder(nodes[1..], id);
      FirstWithIdConcat(NodePreOrder(nodes[0]), PreOrder(nodes[1..]), id);
    }
  }

  lemma {:induction false} FindInNodeIsFirstInPreOrder(node: Node, id: Id)
    decreases node, 2
    ensures FindInNode(node, id) == FirstWithId(NodePreOrder(node), id)
  {
    match node.children
    case Absent =>
    case Present(cs) =>
      FindIsFirstInPreOrder(cs, id);
      FirstWithIdConcat([node], PreOrder(cs), id);
  }

  lemma {:induction false} FindConcat(a: seq<Node>, b: seq<Node>, id: Id)
    ensures FindNodeById(a + b, id) == if FindNodeById(a, id).Some? then FindNodeById(a, id) else FindNodeById(b, id)
  {
    if a == [] {
      assert a + b == b;
    } else {
      assert (a + b)[0] == a[0];
      assert (a + b)[1..] == a[1..] + b;
      FindConcat(a[1..], b, id);
    }
  }

  /** The subtree `findNodeById` returns is part of the forest. */
  lemma {:induction false} FoundSubtreeInForest(nodes: seq<Node>, id: Id)
    decreases nodes, 1
    requires FindNodeById(nodes, id).Some?
    ensures NodeIdBag(FindNodeById(nodes, id).value) <= IdBag(nodes)
  {
    if FindInNode(nodes[0], id).Some? {
      FoundSubtreeInNode(nodes[0], id);
    } else {
      FoundSubtreeInForest(nodes[1..], id);
    }
  }

  lemma {:induction false} FoundSubtreeInNode(node: Node, id: Id)
    decreases node, 2
    requires FindInNode(node, id).Some?
    ensures NodeIdBag(FindInNode(node, id).value) <= NodeIdBag(node)
  {
    if node.id != id {
      FoundSubtreeInForest(node.children.list, id);
    }
  }

  // ---------------------------------------------------------------------------
  // updateNodeById
  // ---------------------------------------------------------------------------

  /**
   * `updateNodeById`: every node whose id is `id` is replaced by
   * `updateFn(node)` (and its old children are not searched); every other node
   * keeps its own fields and has `updateNodeById` applied to its children.
   */
  function UpdateNodeById(nodes: seq<Node>, id: Id, updateFn: Node -> Node): (r: seq<Node>)
    decreases nodes, 1
    ensures |r| == |nodes|
    ensures forall i :: 0 <= i < |nodes| && nodes[i].id == id ==> r[i] == updateFn(nodes[i])
    ensures forall i :: 0 <= i < |nodes| && nodes[i].id != id ==>
              r[i] == nodes[i].(children := r[i].children) && r[i].children.Present? == nodes[i].children.Present?
  {
    if nodes == [] then []
    else [UpdateNode(nodes[0], id, updateFn)] + UpdateNodeById(nodes[1..], id, updateFn)
  }

  function UpdateNode(node: Node, id: Id, updateFn: Node -> Node): Node
    decreases node, 2
  {
    if node.id == id then updateFn(node)
    else match node.children
      case Absent => node
      case Present(cs) => node.(children := Present(UpdateNodeById(cs, id, updateFn)))
  }

  /** The update function `() => updatedNode` used by `setNode`. */
  function Replace(updatedNode: Node): Node -> Node
  {
    _ => updatedNode
  }

  /** An id that occurs nowhere leaves the forest as it was. */
  lemma {:induction false} UpdateMissingId(nodes: seq<Node>, id: Id, updateFn: Node -> Node)
    decreases nodes, 1
    requires id !in IdBag(nodes)
    ensures UpdateNodeById(nodes, id, updateFn) == nodes
  {
    if nodes != [] {
      UpdateNodeMissingId(nodes[0], id, updateFn);
      UpdateMissingId(nodes[1..], id, updateFn);
      assert [nodes[0]] + nodes[1..] == nodes;
    }
  }

  lemma {:induction false} UpdateNodeMissingId(node: Node, id: Id, updateFn: Node -> Node)
    decreases node, 2
    requires id !in NodeIdBag(node)
    ensures UpdateNode(node, id, updateFn) == node
  {
    match node.children
    case Absent =>
    case Present(cs) => UpdateMissingId(cs, id, updateFn);
  }

  /** Updating with the identity function gives back an equal forest. */
  lemma {:induction false} UpdateIdentity(nodes: seq<Node>, id: Id, updateFn: Node -> Node)
    decreases nodes, 1
    requires forall n :: updateFn(n) == n
    ensures UpdateNodeById(nodes, id, updateFn) == nodes
  {
    if nodes != [] {
      UpdateNodeIdentity(nodes[0], id, updateFn);
      UpdateIdentity(nodes[1..], id, updateFn);
      assert [nodes[0]] + nodes[1..] == nodes;
    }
  }

  lemma {:induction false} UpdateNodeIdentity(node: Node, id: Id, updateFn: Node -> Node)
    decreases node, 2
    requires forall n :: updateFn(n) == n
    ensures UpdateNode(node, id, updateFn) == node
  {
    if node.id != id {
      match node.children
      case Absent =>
      case Present(cs) => UpdateIdentity(cs, id, updateFn);
    }
  }

  /**
   * After an update that keeps the id, looking the id up finds the updated
   * version of the node that was found before.
   */
  lemma {:induction false} FindAfterUpdate(nodes: seq<Node>, id: Id, updateFn: Node -> Node, x: Node)
    decreases nodes, 1
    requires FindNodeById(nodes, id) == Some(x)
    requires updateFn(x).id == id
    ensures FindNodeById(UpdateNodeById(nodes, id, updateFn), id) == Some(updateFn(x))
  {
    var r := UpdateNodeById(nodes, id, updateFn);
    assert r[0] == UpdateNode(nodes[0], id, updateFn);
    assert r[1..] == UpdateNodeById(nodes[1..], id, updateFn);
    if FindInNode(nodes[0], id).Some? {
      FindInNodeAfterUpdate(nodes[0], id, updateFn, x);
    } else {
      UpdateNodeMissingId(nodes[0], id, updateFn);
      FindAfterUpdate(nodes[1..], id, updateFn, x);
    }
  }

  lemma {:induction false} FindInNodeAfterUpdate(node: Node, id: Id, updateFn: Node -> Node, x: Node)
    decreases node, 2
    requires FindInNode(node, id) == Some(x)
    requires updateFn(x).id == id
    ensures FindInNode(UpdateNode(node, id, updateFn), id) == Some(updateFn(x))
  {
    if node.id != id {
      FindAfterUpdate(node.children.list, id, updateFn, x);
    }
  }

  /** Replacing the one node with a given id by that same node changes nothing. */
  lemma {:induction false} ReplaceWithFoundIsIdentity(nodes: seq<Node>, id: Id, x: Node)
    decreases nodes, 1
    requires IdBag(nodes)[id] == 1
    requires FindNodeById(nodes, id) == Some(x)
    ensures UpdateNodeById(nodes, id, Replace(x)) == nodes
  {
    if id in NodeIdBag(nodes[0]) {
      ReplaceInNodeWithFoundIsIdentity(nodes[0], id, x);
      UpdateMissingId(nodes[1..], id, Replace(x));
    } else {
      UpdateNodeMissingId(nodes[0], id, Replace(x));
      ReplaceWithFoundIsIdentity(nodes[1..], id, x);
    }
    assert [nodes[0]] + nodes[1..] == nodes;
  }

  lemma {:induction false} ReplaceInNodeWithFoundIsIdentity(node: Node, id: Id, x: Node)
    decreases node, 2
    requires NodeIdBag(node)[id] == 1
    requires FindInNode(node, id) == Some(x)
    ensures UpdateNode(node, id, Replace(x)) == node
  {
    if node.id != id {
      ReplaceWithFoundIsIdentity(node.children.list, id, x);
    }
  }

  /** Two replacements of the same id: the second one wins. */
  lemma {:induction false} ReplaceTwice(nodes: seq<Node>, id: Id, a: Node, b: Node)
    decreases nodes, 1
    requires a.id == id
    ensures UpdateNodeById(UpdateNodeById(nodes, id, Replace(a)), id, Replace(b)) == UpdateNodeById(nodes, id, Replace(b))
  {
    if nodes != [] {
      var once := UpdateNodeById(nodes, id, Replace(a));
      assert once[0] == UpdateNode(nodes[0], id, Replace(a));
      assert once[1..] == UpdateNodeById(nodes[1..], id, Replace(a));
      ReplaceTwiceInNode(nodes[0], id, a, b);
      ReplaceTwice(nodes[1..], id, a, b);
    }
  }

  lemma {:induction false} ReplaceTwiceInNode(node: Node, id: Id, a: Node, b: Node)
    decreases node, 2
    requires a.id == id
    ensures UpdateNode(UpdateNode(node, id, Replace(a)), id, Replace(b)) == UpdateNode(node, id, Replace(b))
  {
    if node.id != id {
      match node.children
      case Absent =>
      case Present(cs) => ReplaceTwice(cs, id, a, b);
    }
  }

  // ---------------------------------------------------------------------------
  // addNodeById
  // ---------------------------------------------------------------------------

  /**
   * `addNodeById`: every node whose id is `id` gets `newNode` appended after
   * its existing children (none if it had no children array) and is opened;
   * other nodes keep their own fields and have the search applied to their
   * children.
   */
  function AddNodeById(nodes: seq<Node>, id: Id, newNode: Node): (r: seq<Node>)
    decreases nodes, 1
    ensures |r| == |nodes|
    ensures forall i :: 0 <= i < |nodes| ==> r[i].id == nodes[i].id
  {
    if nodes == [] then []
    else [AddNode(nodes[0], id, newNode)] + AddNodeById(nodes[1..], id, newNode)
  }

  function AddNode(node: Node, id: Id, newNode: Node): Node
    decreases node, 2
  {
    if node.id == id then node.(isOpen := true, children := Present(Kids(node) + [newNode]))
    else match node.children
      case Absent => node
      case Present(cs) => node.(children := Present(AddNodeById(cs, id, newNode)))
  }

  /** What `addNodeById` does to a matching node, as an update function. */
  function AppendChild(newNode: Node): Node -> Node
  {
    (n: Node) => n.(isOpen := true, children := Present(Kids(n) + [newNode]))
  }

  /** `addNodeById` is `updateNodeById` with the append-and-open update. */
  lemma {:induction false} AddIsUpdate(nodes: seq<Node>, id: Id, newNode: Node)
    decreases nodes, 1
    ensures AddNodeById(nodes, id, newNode) == UpdateNodeById(nodes, id, AppendChild(newNode))
  {
    if nodes != [] {
      AddInNodeIsUpdate(nodes[0], id, newNode);
      AddIsUpdate(nodes[1..], id, newNode);
    }
  }

  lemma {:induction false} AddInNodeIsUpdate(node: Node, id: Id, newNode: Node)
    decreases node, 2
    ensures AddNode(node, id, newNode) == UpdateNode(node, id, AppendChild(newNode))
  {
    if node.id != id {
      match node.children
      case Absent =>
      case Present(cs) => AddIsUpdate(cs, id, newNode);
    }
  }

  /** A parent id that matches no node (such as "root") leaves the forest as it was. */
  lemma AddToMissingParent(nodes: seq<Node>, parentId: Id, newNode: Node)
    requires parentId !in IdBag(nodes)
    ensures AddNodeById(nodes, parentId, newNode) == nodes
  {
    AddIsUpdate(nodes, parentId, newNode);
    UpdateMissingId(nodes, parentId, AppendChild(newNode));
  }

  lemma AddNodeToMissingParent(node: Node, parentId: Id, newNode: Node)
    requires parentId !in NodeIdBag(node)
    ensures AddNode(node, parentId, newNode) == node
  {
    AddInNodeIsUpdate(node, parentId, newNode);
    UpdateNodeMissingId(node, parentId, AppendChild(newNode));
  }

  /**
   * The parent, looked up after the add, is the parent found before with
   * `newNode` as its last child and `isOpen` set.
   */
  lemma AddAppendsToParent(nodes: seq<Node>, parentId: Id, newNode: Node, parent: Node)
    requires FindNodeById(nodes, parentId) == Some(parent)
    ensures FindNodeById(AddNodeById(nodes, parentId, newNode), parentId) ==
            Some(parent.(isOpen := true, children := Present(Kids(parent) + [newNode])))
  {
    AddIsUpdate(nodes, parentId, newNode);
    FindAfterUpdate(nodes, parentId, AppendChild(newNode), parent);
  }

  /** Round trip: a node added under an existing parent with a fresh id is found again. */
  lemma {:induction false} FindAfterAdd(nodes: seq<Node>, parentId: Id, newNode: Node)
    decreases nodes, 1
    requires parentId in IdBag(nodes)
    requires newNode.id !in IdBag(nodes)
    ensures FindNodeById(AddNodeById(nodes, parentId, newNode), newNode.id) == Some(newNode)
  {
    var r := AddNodeById(nodes, parentId, newNode);
    assert r[0] == AddNode(nodes[0], parentId, newNode);
    assert r[1..] == AddNodeById(nodes[1..], parentId, newNode);
    if parentId in NodeIdBag(nodes[0]) {
      FindInNodeAfterAdd(nodes[0], parentId, newNode);
    } else {
      AddNodeToMissingParent(nodes[0], parentId, newNode);
      FindAfterAdd(nodes[1..], parentId, newNode);
    }
  }

  lemma {:induction false} FindInNodeAfterAdd(node: Node, parentId: Id, newNode: Node)
    decreases node, 2
    requires parentId in NodeIdBag(node)
    requires newNode.id !in NodeIdBag(node)
    ensures FindInNode(AddNode(node, parentId, newNode), newNode.id) == Some(newNode)
  {
    if node.id == parentId {
      FindConcat(Kids(node), [newNode], newNode.id);
      assert [newNode][1..] == [];
    } else {
      FindAfterAdd(node.children.list, parentId, newNode);
    }
  }

  /** Under a parent id that occurs once, the add contributes exactly the new node's ids. */
  lemma {:induction false} AddIdBag(nodes: seq<Node>, parentId: Id, newNode: Node)
    decreases nodes, 1
    requires IdBag(nodes)[parentId] == 1
    ensures IdBag(AddNodeById(nodes, parentId, newNode)) == IdBag(nodes) + NodeIdBag(newNode)
  {
    var r := AddNodeById(nodes, parentId, newNode);
    assert r[0] == AddNode(nodes[0], parentId, newNode);
    assert r[1..] == AddNodeById(nodes[1..], parentId, newNode);
    if parentId in NodeIdBag(nodes[0]) {
      AddInNodeIdBag(nodes[0], parentId, newNode);
      AddToMissingParent(nodes[1..], parentId, newNode);
    } else {
      AddNodeToMissingParent(nodes[0], parentId, newNode);
      AddIdBag(nodes[1..], parentId, newNode);
    }
  }

  lemma {:induction false} AddInNodeIdBag(node: Node, parentId: Id, newNode: Node)
    decreases node, 2
    requires NodeIdBag(node)[parentId] == 1
    ensures NodeIdBag(AddNode(node, parentId, newNode)) == NodeIdBag(node) + NodeIdBag(newNode)
  {
    if node.id == parentId {
      IdBagConcat(Kids(node), [newNode]);
      assert [newNode][1..] == [];
    } else {
      AddIdBag(node.children.list, parentId, newNode);
    }
  }

  /** Adding a node whose ids are distinct and fresh keeps every id in the forest unique. */
  lemma AddKeepsUnique(nodes: seq<Node>, parentId: Id, newNode: Node)
    requires Unique(nodes)
    requires parentId in IdBag(nodes)
    requires forall x :: NodeIdBag(newNode)[x] <= 1
    requires NodeIdBag(newNode) !! IdBag(nodes)
    ensures Unique(AddNodeById(nodes, parentId, newNode))
  {
    AddIdBag(nodes, parentId, newNode);
    var r := AddNodeById(nodes, parentId, newNode);
    forall x ensures IdBag(r)[x] <= 1 {
      assert IdBag(r)[x] == IdBag(nodes)[x] + NodeIdBag(newNode)[x];
      if x in IdBag(nodes) {
        assert x !in NodeIdBag(newNode);
      }
    }
  }

  // ---------------------------------------------------------------------------
  // deleteNodeById
  // ---------------------------------------------------------------------------

  /**
   * `deleteNodeById`: first the children of every node are pruned
   * recursively (`map`), then the nodes whose id is `id` are dropped from
   * this level (`filter`).
   */
  function DeleteNodeById(nodes: seq<Node>, id: Id): (r: seq<Node>)
    decreases nodes, 1
    ensures |r| <= |nodes|
    ensures id !in TopIds(r)
  {
    WithoutId(PruneEach(nodes, id), id)
  }

  /** The `map` step of `deleteNodeById`. */
  function PruneEach(nodes: seq<Node>, id: Id): (r: seq<Node>)
    decreases nodes, 0
    ensures |r| == |nodes|
  {
    if nodes == [] then [] else [Prune(nodes[0], id)] + PruneEach(nodes[1..], id)
  }

  function Prune(node: Node, id: Id): (r: Node)
    decreases node, 2
    ensures r.id == node.id
  {
    match node.children
    case Absent => node
    case Present(cs) => node.(children := Present(DeleteNodeById(cs, id)))
  }

  /** The `filter` step of `deleteNodeById`. */
  function WithoutId(nodes: seq<Node>, id: Id): (r: seq<Node>)
    ensures |r| <= |nodes|
    ensures id !in TopIds(r)
  {
    if nodes == [] then []
    else
      var head := if nodes[0].id == id then [] else [nodes[0]];
      var rest := WithoutId(nodes[1..], id);
      TopIdsConcat(head, rest);
      head + rest
  }

  /** `deleteNodeById` unfolded one sibling at a time. */
  lemma DeleteCons(nodes: seq<Node>, id: Id)
    requires nodes != []
    ensures DeleteNodeById(nodes, id) ==
            (if nodes[0].id == id then [] else [Prune(nodes[0], id)]) + DeleteNodeById(nodes[1..], id)
  {
    var p := PruneEach(nodes, id);
    assert p[0] == Prune(nodes[0], id);
    assert p[1..] == PruneEach(nodes[1..], id);
  }

  /** No node with the id survives at any depth, and no other id appears. */
  lemma {:induction false} DeleteRemovesEveryOccurrence(nodes: seq<Node>, id: Id)
    decreases nodes, 1
    ensures IdBag(DeleteNodeById(nodes, id)) <= IdBag(nodes)
    ensures id !in IdBag(DeleteNodeById(nodes, id))
  {
    if nodes != [] {
      DeleteCons(nodes, id);
      PruneRemovesEveryOccurrence(nodes[0], id);
      DeleteRemovesEveryOccurrence(nodes[1..], id);
      IdBagConcat(if nodes[0].id == id then [] else [Prune(nodes[0], id)], DeleteNodeById(nodes[1..], id));
      assert [Prune(nodes[0], id)][1..] == [];
    }
  }

  lemma {:induction false} PruneRemovesEveryOccurrence(node: Node, id: Id)
    decreases node, 2
    ensures NodeIdBag(Prune(node, id)) <= NodeIdBag(node)
    ensures NodeIdBag(Prune(node, id))[id] == if node.id == id then 1 else 0
  {
    match node.children
    case Absent =>
    case Present(cs) => DeleteRemovesEveryOccurrence(cs, id);
  }

  /** Hence `findNodeById` no longer finds a deleted id. */
  lemma FindAfterDelete(nodes: seq<Node>, id: Id)
    ensures FindNodeById(DeleteNodeById(nodes, id), id) == None
  {
    DeleteRemovesEveryOccurrence(nodes, id);
  }

  lemma DeleteKeepsUnique(nodes: seq<Node>, id: Id)
    requires Unique(nodes)
    ensures Unique(DeleteNodeById(nodes, id))
  {
    DeleteRemovesEveryOccurrence(nodes, id);
  }

  /** Deleting an id that occurs nowhere leaves the forest as it was. */
  lemma {:induction false} DeleteMissingId(nodes: seq<Node>, id: Id)
    decreases nodes, 1
    requires id !in IdBag(nodes)
    ensures DeleteNodeById(nodes, id) == nodes
  {
    if nodes != [] {
      DeleteCons(nodes, id);
      PruneMissingId(nodes[0], id);
      DeleteMissingId(nodes[1..], id);
      assert [nodes[0]] + nodes[1..] == nodes;
    }
  }

  lemma {:induction false} PruneMissingId(node: Node, id: Id)
    decreases node, 2
    requires id !in NodeIdBag(node)
    ensures Prune(node, id) == node
  {
    match node.children
    case Absent =>
    case Present(cs) => DeleteMissingId(cs, id);
  }

  lemma {:induction false} DeleteConcat(a: seq<Node>, b: seq<Node>, id: Id)
    ensures DeleteNodeById(a + b, id) == DeleteNodeById(a, id) + DeleteNodeById(b, id)
  {
    if a == [] {
      assert a + b == b;
    } else {
      DeleteConcat(a[1..], b, id);
      DeleteConcatCons(a, b, id);
    }
  }

  /** The step of `DeleteConcat`: from the rest of `a` to the whole of `a`. */
  lemma DeleteConcatCons(a: seq<Node>, b: seq<Node>, id: Id)
    requires a != []
    requires DeleteNodeById(a[1..] + b, id) == DeleteNodeById(a[1..], id) + DeleteNodeById(b, id)
    ensures DeleteNodeById(a + b, id) == DeleteNodeById(a, id) + DeleteNodeById(b, id)
  {
    var head := if a[0].id == id then [] else [Prune(a[0], id)];
    DeleteConsConcat(a, b, id);
    DeleteCons(a, id);
    ConcatAssoc(head, DeleteNodeById(a[1..], id), DeleteNodeById(b, id));
  }

  lemma ConcatAssoc(x: seq<Node>, y: seq<Node>, z: seq<Node>)
    ensures x + (y + z) == (x + y) + z
  {
  }

  /** `DeleteCons` on `a + b`, stated in terms of `a`. */
  lemma DeleteConsConcat(a: seq<Node>, b: seq<Node>, id: Id)
    requires a != []
    ensures DeleteNodeById(a + b, id) ==
            (if a[0].id == id then [] else [Prune(a[0], id)]) + DeleteNodeById(a[1..] + b, id)
  {
    assert (a + b)[0] == a[0];
    assert (a + b)[1..] == a[1..] + b;
    DeleteCons(a + b, id);
  }

  /**
   * When the id occurs once, deleting it removes exactly the ids of the
   * subtree rooted at the found node: the whole subtree and nothing else.
   */
  lemma {:induction false} DeleteRemovesSubtree(nodes: seq<Node>, id: Id, x: Node)
    decreases nodes, 1
    requires IdBag(nodes)[id] == 1
    requires FindNodeById(nodes, id) == Some(x)
    ensures IdBag(DeleteNodeById(nodes, id)) + NodeIdBag(x) == IdBag(nodes)
  {
    var node, rest := nodes[0], nodes[1..];
    DeleteCons(nodes, id);
    if id in NodeIdBag(node) {
      DeleteMissingId(rest, id);
      if node.id == id {
        assert DeleteNodeById(nodes, id) == rest;
      } else {
        PruneRemovesSubtree(node, id, x);
        DeleteFirstOnly(nodes, id);
      }
    } else {
      PruneMissingId(node, id);
      DeleteRemovesSubtree(rest, id, x);
      DeleteLaterOnly(nodes, id);
    }
  }

  lemma DeleteFirstOnly(nodes: seq<Node>, id: Id)
    requires nodes != [] && nodes[0].id != id
    requires DeleteNodeById(nodes, id) == [Prune(nodes[0], id)] + nodes[1..]
    ensures IdBag(DeleteNodeById(nodes, id)) == NodeIdBag(Prune(nodes[0], id)) + IdBag(nodes[1..])
  {
    var pruned := Prune(nodes[0], id);
    IdBagConcat([pruned], nodes[1..]);
    assert [pruned][1..] == [];
  }

  lemma DeleteLaterOnly(nodes: seq<Node>, id: Id)
    requires nodes != [] && nodes[0].id != id
    requires DeleteNodeById(nodes, id) == [nodes[0]] + DeleteNodeById(nodes[1..], id)
    ensures IdBag(DeleteNodeById(nodes, id)) == NodeIdBag(nodes[0]) + IdBag(DeleteNodeById(nodes[1..], id))
  {
    var d := DeleteNodeById(nodes[1..], id);
    IdBagConcat([nodes[0]], d);
    assert [nodes[0]][1..] == [];
  }

  lemma {:induction false} PruneRemovesSubtree(node: Node, id: Id, x: Node)
    decreases node, 2
    requires node.id != id
    requires NodeIdBag(node)[id] == 1
    requires FindInNode(node, id) == Some(x)
    ensures NodeIdBag(Prune(node, id)) + NodeIdBag(x) == NodeIdBag(node)
  {
    DeleteRemovesSubtree(node.children.list, id, x);
  }

  /** The ids of a forest's top-level nodes, in order. */
  function TopIds(nodes: seq<Node>): (r: seq<Id>)
    ensures |r| == |nodes|
  {
    if nodes == [] then [] else [nodes[0].id] + TopIds(nodes[1..])
  }

  /** `s` with every occurrence of `x` removed, the rest in the same order. */
  function Erase(s: seq<Id>, x: Id): (r: seq<Id>)
    ensures x !in r
    ensures multiset(r) == multiset(s)[x := 0]
  {
    if s == [] then []
    else
      assert s == [s[0]] + s[1..];
      (if s[0] == x then [] else [s[0]]) + Erase(s[1..], x)
  }

  /**
   * At the top level (and, applied to a children list, at any level) the
   * surviving siblings keep their relative order.
   */
  lemma {:induction false} DeleteKeepsSiblingOrder(nodes: seq<Node>, id: Id)
    ensures TopIds(DeleteNodeById(nodes, id)) == Erase(TopIds(nodes), id)
  {
    if nodes != [] {
      DeleteCons(nodes, id);
      DeleteKeepsSiblingOrder(nodes[1..], id);
      var head := if nodes[0].id == id then [] else [Prune(nodes[0], id)];
      TopIdsConcat(head, DeleteNodeById(nodes[1..], id));
      assert [Prune(nodes[0], id)][1..] == [];
    }
  }

  lemma {:induction false} TopIdsConcat(a: seq<Node>, b: seq<Node>)
    ensures TopIds(a + b) == TopIds(a) + TopIds(b)
  {
    if a == [] {
      assert a + b == b;
    } else {
      assert (a + b)[0] == a[0];
      assert (a + b)[1..] == a[1..] + b;
      TopIdsConcat(a[1..], b);
    }
  }
}
