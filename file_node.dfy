/**
 * The interaction logic of one rendered node (src/components/FileNode.jsx):
 * its local edit state (`isEditing` and the draft `name`) and the event
 * handlers. A handler does not change the tree itself; it calls the owner's
 * callbacks, which are modelled here as the list of `Request`s it issues, in
 * order. `FileExplorer.Explorer.Dispatch` carries them out.
 */
module FileNode {
  import opened Tree

  /** A call on one of the owner's callbacks, or the blocking alert. */
  datatype Request =
    | SetNode(updatedNode: Node)
    | OnDelete(id: Id)
    | OnAdd(parentId: Id, isFolder: bool)
    | SetSelectedId(id: Id)
    | Rejected  // alert("Name cannot be empty."): nothing else happens

  // ---------------------------------------------------------------------------
  // String.prototype.trim
  // ---------------------------------------------------------------------------

  /** The characters `trim` removes: ECMAScript WhiteSpace and LineTerminator. */
  predicate IsWhitespace(c: char)
  {
    c == '\t' || c == '\n' || c == '\U{000B}' || c == '\U{000C}' || c == '\r' || c == ' ' ||
    c == '\U{00A0}' || c == '\U{1680}' || ('\U{2000}' <= c <= '\U{200A}') ||
    c == '\U{2028}' || c == '\U{2029}' || c == '\U{202F}' || c == '\U{205F}' ||
    c == '\U{3000}' || c == '\U{FEFF}'
  }

  /** Every character of `s` is whitespace (the empty string included). */
  predicate Blank(s: string)
  {
    forall i :: 0 <= i < |s| ==> IsWhitespace(s[i])
  }

  /** The number of whitespace characters at the start of `s`. */
  function LeadingSpace(s: string): (k: nat)
    ensures k <= |s|
    ensures forall i :: 0 <= i < k ==> IsWhitespace(s[i])
    ensures k < |s| ==> !IsWhitespace(s[k])
  {
    if s == [] || !IsWhitespace(s[0]) then 0 else 1 + LeadingSpace(s[1..])
  }

  /** The length of `s` without the whitespace at its end. */
  function TrailingStart(s: string): (k: nat)
    ensures k <= |s|
    ensures forall i :: k <= i < |s| ==> IsWhitespace(s[i])
    ensures 0 < k ==> !IsWhitespace(s[k - 1])
  {
    if s == [] || !IsWhitespace(s[|s| - 1]) then |s| else TrailingStart(s[..|s| - 1])
  }

  /**
   * `s.trim()`: `s` without its leading and trailing whitespace. It is empty
   * exactly when `s` is blank; otherwise it is the slice of `s` that starts
   * and ends with a non-whitespace character and has only whitespace before
   * and after it.
   */
  function Trim(s: string): (r: string)
    ensures |r| == 0 <==> Blank(s)
    ensures |r| > 0 ==> !IsWhitespace(r[0]) && !IsWhitespace(r[|r| - 1])
    ensures exists i :: 0 <= i && i + |r| <= |s| && s[..i] + r == s[..i + |r|] &&
                        Blank(s[..i]) && Blank(s[i + |r|..])
  {
    var start := LeadingSpace(s);
    var rest := s[start..];
    var end := TrailingStart(rest);
    var r := rest[..end];
    assert s[..start] + r == s[..start + end];
    assert s[start + end..] == rest[end..];
    assert Blank(s[..start]);
    r
  }

  /** `{ ...node, isOpen: !node.isOpen }` */
  function Toggled(node: Node): Node
  {
    node.(isOpen := !node.isOpen)
  }

  /**
   * Toggling a folder twice through `setNode` gives back the tree it started
   * from, when the folder's id occurs once: the second toggle is issued with
   * the re-rendered node, whose `isOpen` is the first toggle's.
   */
  lemma ToggleTwiceRestoresTree(treeData: seq<Node>, folder: Node)
    requires IdBag(treeData)[folder.id] == 1
    requires FindNodeById(treeData, folder.id) == Some(folder)
    ensures UpdateNodeById(UpdateNodeById(treeData, folder.id, Replace(Toggled(folder))),
                           folder.id, Replace(Toggled(Toggled(folder)))) == treeData
  {
    assert Toggled(Toggled(folder)) == folder;
    ReplaceTwice(treeData, folder.id, Toggled(folder), folder);
    ReplaceWithFoundIsIdentity(treeData, folder.id, folder);
  }

  /**
   * One rendered `FileNode`: its props (`node`, `level`) and its local state
   * (`isEditing`, the draft `name`).
   */
  class NodeView {
    var node: Node
    var level: nat
    var isEditing: bool
    var name: string

    /** `useState(node.isEditing || false)`, `useState(node.name || "")` */
    constructor (node: Node, level: nat)
      ensures this.node == node && this.level == level
      ensures isEditing == node.isEditing && name == node.name
    {
      this.node := node;
      this.level := level;
      isEditing := node.isEditing;
      name := node.name;
    }

    /**
     * A re-render with new props. The effect keyed on `node.isEditing` turns
     * local editing on when that flag has just become true; the draft name
     * keeps its local value.
     */
    method ReceiveProps(newNode: Node, newLevel: nat)
      modifies this`node, this`level, this`isEditing
      ensures node == newNode && level == newLevel
      ensures isEditing == (old(isEditing) || (newNode.isEditing && !old(node).isEditing))
    {
      var changed := newNode.isEditing != node.isEditing;
      node := newNode;
      level := newLevel;
      if changed && newNode.isEditing {
        isEditing := true;
      }
    }

    /** The text field's `onChange`. */
    method Change(value: string)
      modifies this`name
      ensures name == value
    {
      name := value;
    }

    /**
     * The pencil control: enter edit mode. The controls are shown only while
     * not editing; while editing there is no control and the flag stays true.
     */
    method StartRename()
      modifies this`isEditing
      ensures isEditing
    {
      isEditing := true;
    }

    /** `handleToggle`: a folder asks for its `isOpen` to be flipped; a file does nothing. */
    method HandleToggle() returns (calls: seq<Request>)
      ensures node.kind == Folder ==> calls == [SetNode(node.(isOpen := !node.isOpen))]
      ensures node.kind == File ==> calls == []
    {
      calls := [];
      if node.kind == Folder {
        calls := [SetNode(Toggled(node))];
      }
    }

    /**
     * `handleRename`: a blank draft is rejected and nothing changes; otherwise
     * editing ends and the node is committed with the untrimmed draft as its
     * name and `isEditing` false, every other field as it was.
     */
    method HandleRename() returns (calls: seq<Request>)
      modifies this`isEditing
      ensures Blank(name) ==> calls == [Rejected] && isEditing == old(isEditing)
      ensures !Blank(name) ==> !isEditing && calls == [SetNode(node.(name := name, isEditing := false))]
    {
      if Trim(name) == "" {
        calls := [Rejected];
        return;
      }
      isEditing := false;
      calls := [SetNode(node.(name := name, isEditing := false))];
    }

    /**
     * `handleBlur`: a blank draft deletes the node (and never commits it);
     * otherwise the draft is committed as by `handleRename`.
     */
    method HandleBlur() returns (calls: seq<Request>)
      modifies this`isEditing
      ensures Blank(name) ==> calls == [OnDelete(node.id)] && isEditing == old(isEditing)
      ensures !Blank(name) ==> !isEditing && calls == [SetNode(node.(name := name, isEditing := false))]
    {
      if Trim(name) == "" {
        calls := [OnDelete(node.id)];
      } else {
        calls := HandleRename();
      }
    }

    /** The text field's `onKeyDown`: Enter commits as `handleRename`, other keys do nothing. */
    method InputKeyDown(key: string) returns (calls: seq<Request>)
      modifies this`isEditing
      ensures key == "Enter" && Blank(name) ==> calls == [Rejected] && isEditing == old(isEditing)
      ensures key == "Enter" && !Blank(name) ==>
                !isEditing && calls == [SetNode(node.(name := name, isEditing := false))]
      ensures key != "Enter" ==> calls == [] && isEditing == old(isEditing)
    {
      calls := [];
      if key == "Enter" {
        calls := HandleRename();
      }
    }

    /** The tree item's `onKeyDown`: Enter toggles a folder, Delete deletes any node. */
    method TreeItemKeyDown(key: string) returns (calls: seq<Request>)
      ensures key == "Enter" ==> calls == if node.kind == Folder then [SetNode(node.(isOpen := !node.isOpen))] else []
      ensures key == "Delete" ==> calls == [OnDelete(node.id)]
      ensures key != "Enter" && key != "Delete" ==> calls == []
    {
      calls := [];
      if key == "Enter" && node.kind == Folder {
        calls := calls + [SetNode(Toggled(node))];
      }
      if key == "Delete" {
        calls := calls + [OnDelete(node.id)];
      }
    }

    /** The tree item's `onFocus`: select this node. */
    method TreeItemFocus() returns (calls: seq<Request>)
      ensures calls == [SetSelectedId(node.id)]
    {
      calls := [SetSelectedId(node.id)];
    }

    /** The tree item's `onClick`: select this node, then toggle it if it is a folder. */
    method TreeItemClick() returns (calls: seq<Request>)
      ensures |calls| >= 1 && calls[0] == SetSelectedId(node.id)
      ensures node.kind == Folder ==> calls[1..] == [SetNode(node.(isOpen := !node.isOpen))]
      ensures node.kind == File ==> calls[1..] == []
    {
      calls := [SetSelectedId(node.id)];
      if node.kind == Folder {
        calls := calls + [SetNode(Toggled(node))];
      }
    }

    /** A click anywhere else on the row: select this node. */
    method RowClick() returns (calls: seq<Request>)
      ensures calls == [SetSelectedId(node.id)]
    {
      calls := [SetSelectedId(node.id)];
    }

    /**
     * The trash control: delete this node, whatever its kind. Like every row
     * control it is not rendered while the name is being edited.
     */
    method DeleteClick() returns (calls: seq<Request>)
      ensures !isEditing ==> calls == [OnDelete(node.id)]
      ensures isEditing ==> calls == []
    {
      calls := [];
      if !isEditing {
        calls := [OnDelete(node.id)];
      }
    }

    /**
     * The add-folder and add-file controls, which only a folder's row has,
     * and only while its name is not being edited.
     */
    method AddClick(isFolder: bool) returns (calls: seq<Request>)
      ensures !isEditing && node.kind == Folder ==> calls == [OnAdd(node.id, isFolder)]
      ensures isEditing || node.kind == File ==> calls == []
    {
      calls := [];
      if !isEditing && node.kind == Folder {
        calls := [OnAdd(node.id, isFolder)];
      }
    }
  }
}
