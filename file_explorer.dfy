/**
 * The explorer component's state and handlers
 * (src/components/FileExplorer.jsx): the forest `treeData`, the selected id
 * and the status message `ariaMessage` read out by assistive technology.
 */
module FileExplorer {
  import opened Tree
  import opened FileNode

  /** The node `onAdd` creates: unnamed, in edit mode, open, with an empty children array iff a folder. */
  function NewNode(id: Id, isFolder: bool): (r: Node)
    ensures r.name == "" && r.isEditing && r.isOpen
    ensures r.kind == Folder <==> isFolder
    ensures r.children.Present? <==> isFolder
    ensures NodeIdBag(r) == multiset{id}
  {
    assert IdBag([]) == multiset{};
    Node(id, "", if isFolder then Folder else File, true, true, if isFolder then Present([]) else Absent)
  }

  /** `node?.name || 'Item'`: the name, unless the node is missing or its name is empty. */
  function DeletedLabel(found: Option<Node>): (text: string)
    ensures text != ""
    ensures found.Some? && found.value.name != "" ==> text == found.value.name
    ensures found.None? ==> text == "Item"
    ensures found.Some? && found.value.name == "" ==> text == "Item"
  {
    if found.Some? && found.value.name != "" then found.value.name else "Item"
  }

  /** A parent as an add followed by the delete of the added node leaves it: open, with a children array. */
  function OpenParent(node: Node): Node
  {
    node.(isOpen := true, children := Present(Kids(node)))
  }

  /**
   * Creating a node and then deleting it by its fresh id (what blurring the
   * new node's empty name field does) gives back the tree, except that the
   * parent stays open and now has a children array.
   */
  lemma {:induction false} AddThenDeleteOnlyOpensParent(nodes: seq<Node>, parentId: Id, newNode: Node)
    decreases nodes, 1
    requires newNode.id !in IdBag(nodes)
    ensures DeleteNodeById(AddNodeById(nodes, parentId, newNode), newNode.id) ==
            UpdateNodeById(nodes, parentId, OpenParent)
  {
    if nodes != [] {
      var added := AddNodeById(nodes, parentId, newNode);
      assert added[0] == AddNode(nodes[0], parentId, newNode);
      assert added[1..] == AddNodeById(nodes[1..], parentId, newNode);
      DeleteCons(added, newNode.id);
      AddThenPruneOnlyOpensParent(nodes[0], parentId, newNode);
      AddThenDeleteOnlyOpensParent(nodes[1..], parentId, newNode);
    }
  }

  lemma {:induction false} AddThenPruneOnlyOpensParent(node: Node, parentId: Id, newNode: Node)
    decreases node, 2
    requires newNode.id !in NodeIdBag(node)
    ensures Prune(AddNode(node, parentId, newNode), newNode.id) == UpdateNode(node, parentId, OpenParent)
  {
    KidsIdBag(node);
    if node.id == parentId {
      DeleteConcat(Kids(node), [newNode], newNode.id);
      DeleteMissingId(Kids(node), newNode.id);
      DeleteCons([newNode], newNode.id);
      assert [newNode][1..] == [];
      assert Kids(node) + [] == Kids(node);
    } else {
      match node.children
      case Absent =>
      case Present(cs) => AddThenDeleteOnlyOpensParent(cs, parentId, newNode);
    }
  }

  class Explorer {
    var treeData: seq<Node>
    var selectedId: Option<Id>
    var ariaMessage: string

    /** `useState(initialData)`, `useState(null)`, `useState("")` */
    constructor (initialData: seq<Node>)
      ensures treeData == initialData && selectedId == None && ariaMessage == ""
    {
      treeData := initialData;
      selectedId := None;
      ariaMessage := "";
    }

    /**
     * `setNode`: every node with the updated node's id is replaced by it; a
     * node that is no longer being edited is announced as renamed (which also
     * happens when the update is a toggle).
     */
    method SetNode(updatedNode: Node)
      modifies this`treeData, this`ariaMessage
      ensures treeData == UpdateNodeById(old(treeData), updatedNode.id, Replace(updatedNode))
      ensures updatedNode.id in IdBag(old(treeData)) ==> FindNodeById(treeData, updatedNode.id) == Some(updatedNode)
      ensures updatedNode.id !in IdBag(old(treeData)) ==> treeData == old(treeData)
      ensures !updatedNode.isEditing ==>
                ariaMessage == (if updatedNode.kind == Folder then "Folder" else "File") + " renamed to " + updatedNode.name
      ensures updatedNode.isEditing ==> ariaMessage == old(ariaMessage)
    {
      if updatedNode.id in IdBag(treeData) {
        FindAfterUpdate(treeData, updatedNode.id, Replace(updatedNode), FindNodeById(treeData, updatedNode.id).value);
      } else {
        UpdateMissingId(treeData, updatedNode.id, Replace(updatedNode));
      }
      treeData := UpdateNodeById(treeData, updatedNode.id, Replace(updatedNode));
      if !updatedNode.isEditing {
        ariaMessage := (if updatedNode.kind == Folder then "Folder" else "File") + " renamed to " + updatedNode.name;
      }
    }

    /**
     * `onDelete`: the message names the node found before the delete, then
     * every node with the id goes, with its whole subtree.
     */
    method OnDelete(id: Id)
      modifies this`treeData, this`ariaMessage
      ensures treeData == DeleteNodeById(old(treeData), id)
      ensures ariaMessage == DeletedLabel(FindNodeById(old(treeData), id)) + " deleted"
      ensures FindNodeById(treeData, id) == None
      ensures Unique(old(treeData)) ==> Unique(treeData)
    {
      var node := FindNodeById(treeData, id);
      FindAfterDelete(treeData, id);
      if Unique(treeData) {
        DeleteKeepsUnique(treeData, id);
      }
      treeData := DeleteNodeById(treeData, id);
      ariaMessage := DeletedLabel(node) + " deleted";
    }

    /**
     * `onAdd`: a new unnamed node in edit mode is appended under `parentId`
     * (which is opened) and its creation announced. `newId` stands for
     * `Date.now().toString()`. A parent id that matches nothing, such as
     * "root", leaves the tree as it was but is still announced.
     */
    method OnAdd(parentId: Id, isFolder: bool, newId: Id)
      modifies this`treeData, this`ariaMessage
      ensures treeData == AddNodeById(old(treeData), parentId, NewNode(newId, isFolder))
      ensures ariaMessage == if isFolder then "Folder created" else "File created"
      ensures parentId !in IdBag(old(treeData)) ==> treeData == old(treeData)
      ensures parentId in IdBag(old(treeData)) && newId !in IdBag(old(treeData)) ==>
                FindNodeById(treeData, newId) == Some(NewNode(newId, isFolder)) &&
                (Unique(old(treeData)) ==> Unique(treeData))
    {
      var newNode := NewNode(newId, isFolder);
      if parentId !in IdBag(treeData) {
        AddToMissingParent(treeData, parentId, newNode);
      } else if newId !in IdBag(treeData) {
        FindAfterAdd(treeData, parentId, newNode);
        if Unique(treeData) {
          AddKeepsUnique(treeData, parentId, newNode);
        }
      }
      treeData := AddNodeById(treeData, parentId, newNode);
      ariaMessage := if isFolder then "Folder created" else "File created";
    }

    /** `setSelectedId` */
    method SetSelectedId(id: Id)
      modifies this`selectedId
      ensures selectedId == Some(id)
    {
      selectedId := Some(id);
    }

    /**
     * Carries out one callback request of a `FileNode`. `newId` is the clock
     * value an `OnAdd` request turns into the new node's id; the alert of a
     * rejected rename changes no state.
     */
    method Dispatch(request: Request, newId: Id)
      modifies this
      ensures request.SetNode? ==>
                treeData == UpdateNodeById(old(treeData), request.updatedNode.id, Replace(request.updatedNode)) &&
                selectedId == old(selectedId) &&
                ariaMessage == if request.updatedNode.isEditing then old(ariaMessage)
                               else (if request.updatedNode.kind == Folder then "Folder" else "File") +
                                    " renamed to " + request.updatedNode.name
      ensures request.OnDelete? ==>
                treeData == DeleteNodeById(old(treeData), request.id) && selectedId == old(selectedId) &&
                ariaMessage == DeletedLabel(FindNodeById(old(treeData), request.id)) + " deleted"
      ensures request.OnAdd? ==>
                treeData == AddNodeById(old(treeData), request.parentId, NewNode(newId, request.isFolder)) &&
                selectedId == old(selectedId) &&
                ariaMessage == if request.isFolder then "Folder created" else "File created"
      ensures request.SetSelectedId? ==>
                selectedId == Some(request.id) && treeData == old(treeData) && ariaMessage == old(ariaMessage)
      ensures request.Rejected? ==>
                treeData == old(treeData) && selectedId == old(selectedId) && ariaMessage == old(ariaMessage)
    {
      match request
      case SetNode(updatedNode) => SetNode(updatedNode);
      case OnDelete(id) => OnDelete(id);
      case OnAdd(parentId, isFolder) => OnAdd(parentId, isFolder, newId);
      case SetSelectedId(id) => SetSelectedId(id);
      case Rejected =>
    }
  }

  /**
   * A file is created in the open, empty folder "Docs"; a blank name is
   * rejected on Enter; leaving the field deletes the file again.
   */
  method AbandonedFileScenario()
  {
    var docs := Node("docs", "Docs", Folder, true, false, Present([]));
    var created := NewNode("t1", false);
    var withFile := docs.(children := Present([created]));
    ScenarioTrees(docs, created, withFile);

    var explorer := new Explorer([docs]);
    explorer.OnAdd("docs", false, "t1");
    assert explorer.treeData == [withFile];
    assert explorer.ariaMessage == "File created";

    var view := new NodeView(created, 1);
    view.Change("   ");
    assert Blank(view.name);
    var calls := view.InputKeyDown("Enter");
    assert calls == [Rejected] && view.isEditing;
    calls := view.HandleBlur();
    assert calls == [OnDelete("t1")];

    explorer.Dispatch(calls[0], "t2");
    assert explorer.treeData == [docs];
    assert explorer.ariaMessage == "Item deleted";
  }

  lemma ScenarioTrees(docs: Node, created: Node, withFile: Node)
    requires docs == Node("docs", "Docs", Folder, true, false, Present([]))
    requires created == NewNode("t1", false)
    requires withFile == docs.(children := Present([created]))
    ensures AddNodeById([docs], "docs", created) == [withFile]
    ensures FindNodeById([withFile], "t1") == Some(created)
    ensures DeleteNodeById([withFile], "t1") == [docs]
  {
    assert [docs][1..] == [];
    assert [created][1..] == [];
    assert [withFile][1..] == [];
    assert "docs" != "t1";
    assert IdBag([docs]) == multiset{"docs"};
    assert Kids(docs) + [created] == [created];
    assert AddNode(docs, "docs", created) == withFile;
    assert FindInNode(created, "t1") == Some(created);
    assert FindNodeById([created], "t1") == Some(created);
    assert FindInNode(withFile, "t1") == Some(created);
    AddThenDeleteOnlyOpensParent([docs], "docs", created);
    assert UpdateNode(docs, "docs", OpenParent) == docs;
    assert UpdateNodeById([docs], "docs", OpenParent) == [docs];
  }
}
