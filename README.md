# File explorer tree: a Dafny model

This project models the logic of a browser file-tree explorer widget. The
widget keeps an ordered forest of `file` and `folder` nodes. Each node has an
`id`, a `name`, a `type`, the flags `isOpen` and `isEditing`, and an optional
`children` array. The user can create, rename, delete, expand and collapse
nodes.

The model has four modules, one per part of the source:

- `Tree` (`tree.dfy`) holds the node datatype and the four pure helpers of the
  explorer component: `findNodeById`, `updateNodeById`, `addNodeById` and
  `deleteNodeById`. They are recursive functions over the forest. A node's
  `children` is `Absent` (JS `undefined`) or `Present(list)`. The lemmas state
  what each helper does with a missing id, at any depth, and how the helpers
  relate to each other. Reference definitions are used as independent
  partners: the pre-order list of all nodes, and the multiset of all ids.
- `Visible` (`visible.dfy`) holds the rows a `FileNode` renders. A node's row
  comes first, at `level`. Its children follow, at `level + 1`, only when its
  `children` array exists and `isOpen` is true.
- `FileNode` (`file_node.dfy`) holds the per-node interaction state: the
  props `node` and `level`, and the local `isEditing` flag and draft `name`.
  It is a class whose handlers return the callback calls they make, as a list
  of `Request`s. It also models `String.prototype.trim`, with the ECMAScript
  whitespace and line-terminator characters.
- `FileExplorer` (`file_explorer.dfy`) holds the owning component: a class
  with `treeData`, `selectedId` and `ariaMessage`. Its methods are `setNode`,
  `onDelete`, `onAdd` and `setSelectedId`. `Dispatch` carries out one
  `Request` of a node. `AbandonedFileScenario` puts the pieces together: it
  creates a file, has a blank rename rejected, and shows that leaving the
  field deletes the file again.

Behaviours of the code a reader may not expect, which the model keeps:

- `addNodeById` appends to every matching node that is not nested under
  another match, a file as well as a folder.
  A file then gets a `children` array. It is not a no-op for files.
- The header's add buttons call `onAdd("root", …)`. If no node has the id
  `"root"`, the tree stays as it was, but "File created" or "Folder created"
  is still announced. No notice is shown either.
- `onDelete` does not clear or move `selectedId`.
- `setNode` announces "Folder renamed to …" for any update whose node is not
  being edited. A folder toggle is such an update too.
- The code has no Up/Down arrow navigation. The only key handlers are Enter
  and Delete on the tree item, and Enter in the name field.

## Model

| member | source | states |
|---|---|---|
| `Tree.FindNodeById` | src/components/FileExplorer.jsx:50-59 | a node is found exactly when the id occurs somewhere in the forest, at any depth, and the node found carries that id |
| `Tree.FindIsFirstInPreOrder` | src/components/FileExplorer.jsx:50-59 | the node found is the first node with the id in the pre-order list of all nodes (a parent before its children, siblings in order) |
| `Tree.FoundSubtreeInForest` | src/components/FileExplorer.jsx:50-59 | the subtree that is found is part of the forest: its ids are a sub-multiset of the forest's ids |
| `Tree.UpdateNodeById` | src/components/FileExplorer.jsx:10-17 | the list it is given keeps its length; a node in it with the id becomes `updateFn(node)` (whose children are whatever `updateFn` returns, and are not searched); any other node keeps all its own fields, and keeps or lacks a children array as before, its children being updated the same way |
| `Tree.UpdateMissingId` | src/components/FileExplorer.jsx:10-17 | when no node has the id, the result equals the input |
| `Tree.UpdateIdentity` | src/components/FileExplorer.jsx:10-17 | with an identity update function, the result equals the input |
| `Tree.FindAfterUpdate` | src/components/FileExplorer.jsx:10-17 | if the update keeps the id, looking the id up afterwards finds the updated version of the node found before |
| `Tree.ReplaceWithFoundIsIdentity` | src/components/FileExplorer.jsx:41-42 | when the id occurs once, replacing its node by the node that lookup finds changes nothing |
| `Tree.ReplaceTwice` | src/components/FileExplorer.jsx:10-17 | two replacements of the same id in a row equal the second one alone |
| `Tree.AddNodeById` | src/components/FileExplorer.jsx:19-30 | the list it is given keeps its length and its ids in order; lists under a non-matching node are handled the same way, and a matching node's children are not searched but gain the new node at the end |
| `Tree.AddIsUpdate` | src/components/FileExplorer.jsx:19-30 | adding equals updating with "open the node and append the new node after its old children (none if it had no array)" |
| `Tree.AddToMissingParent` | src/components/FileExplorer.jsx:19-30 | a parent id that matches no node (such as "root") leaves the forest equal to the input |
| `Tree.AddAppendsToParent` | src/components/FileExplorer.jsx:22-26 | looked up after the add, the parent is the parent found before, now open, with the new node as its last child and its old children first |
| `Tree.FindAfterAdd` | src/components/FileExplorer.jsx:19-30 | round trip: the parent exists and the new id is fresh, so looking the new id up afterwards finds exactly the new node |
| `Tree.AddIdBag` | src/components/FileExplorer.jsx:19-30 | when the parent id occurs once, the add brings in exactly the new node's ids and takes none away |
| `Tree.AddKeepsUnique` | src/components/FileExplorer.jsx:19-30 | adding a node with fresh, distinct ids under an existing parent keeps all ids of the forest distinct |
| `Tree.DeleteNodeById` | src/components/FileExplorer.jsx:32-39 | no node left in the sibling list has the id, and the list never grows |
| `Tree.DeleteRemovesEveryOccurrence` | src/components/FileExplorer.jsx:32-39 | afterwards no node at any depth has the id, and no id appears that was not there before |
| `Tree.FindAfterDelete` | src/components/FileExplorer.jsx:32-39 | after the delete, looking the id up finds nothing |
| `Tree.DeleteKeepsUnique` | src/components/FileExplorer.jsx:32-39 | deleting keeps the ids of a duplicate-free forest distinct |
| `Tree.DeleteMissingId` | src/components/FileExplorer.jsx:32-39 | deleting an id that occurs nowhere leaves the forest equal to the input |
| `Tree.DeleteConcat` | src/components/FileExplorer.jsx:32-39 | deleting from two concatenated sibling lists equals deleting from each list |
| `Tree.DeleteRemovesSubtree` | src/components/FileExplorer.jsx:32-39 | when the id occurs once, exactly the ids of the found node's whole subtree disappear; every other id stays |
| `Tree.DeleteKeepsSiblingOrder` | src/components/FileExplorer.jsx:33-39 | the surviving top-level ids are the old ones with the deleted id erased, in their old order |
| `Visible.Rows` | src/components/FileExplorer.jsx:149-161 | the forest rendered at level 0: every top-level node has a row, every row shows a node whose id occurs in the forest, and there are never more rows than nodes |
| `Visible.VisibleRows` | src/components/FileNode.jsx:196-213 | every rendered row is at the list's level or deeper, and shows a node whose id occurs in the forest |
| `Visible.NodeRows` | src/components/FileNode.jsx:196-213 | a node's rows are at its level or deeper and show only nodes of its own subtree |
| `Visible.RowsAtMostNodes` | src/components/FileNode.jsx:196-213 | there are never more rendered rows than nodes |
| `Visible.SiblingsAreVisible` | src/components/FileNode.jsx:200-211 | every node of a rendered sibling list gets a row at that list's level |
| `Visible.OpenFolderShowsChildren` | src/components/FileNode.jsx:198-211 | every child of an open node with a children array gets a row at `level + 1` |
| `Visible.ClosedFolderHidesDescendants` | src/components/FileNode.jsx:198-211 | in a forest with distinct ids, no descendant of a closed folder is rendered, at any depth |
| `Visible.NodeHidesDescendants` | src/components/FileNode.jsx:198-211 | the same within one node's subtree |
| `FileNode.Trim` | src/components/FileNode.jsx:45 | the trimmed draft is empty exactly when every character is whitespace; otherwise it is the slice of the draft that starts and ends with non-whitespace and has only whitespace before and after it |
| `FileNode.ToggleTwiceRestoresTree` | src/components/FileNode.jsx:37-42 | when the folder's id occurs once, toggling it twice through `setNode` gives back the original tree |
| `FileNode.NodeView.constructor` | src/components/FileNode.jsx:21-22 | local `isEditing` starts as the node's flag, and the draft starts as the node's name |
| `FileNode.NodeView.ReceiveProps` | src/components/FileNode.jsx:27-29 | on new props, local editing is turned on when `node.isEditing` has just become true, and is otherwise kept; the draft is kept |
| `FileNode.NodeView.Change` | src/components/FileNode.jsx:122 | typing replaces the draft name |
| `FileNode.NodeView.StartRename` | src/components/FileNode.jsx:148-153 | the rename control turns local editing on; while editing the control is hidden and the flag stays on |
| `FileNode.NodeView.HandleToggle` | src/components/FileNode.jsx:37-42 | a folder asks `setNode` for itself with `isOpen` negated and nothing else changed; a file asks nothing (the handler is not attached to any element; the same toggle is written out inline at lines 93 and 103) |
| `FileNode.NodeView.HandleRename` | src/components/FileNode.jsx:44-51 | a blank draft is rejected, and editing and the tree are left alone; otherwise editing ends and `setNode` gets the node with the untrimmed draft as name and `isEditing` false |
| `FileNode.NodeView.HandleBlur` | src/components/FileNode.jsx:53-59 | a blank draft asks `onDelete(node.id)` and never `setNode`; otherwise it commits exactly as a rename does |
| `FileNode.NodeView.InputKeyDown` | src/components/FileNode.jsx:124-129 | Enter in the name field behaves as a rename; other keys do nothing |
| `FileNode.NodeView.TreeItemKeyDown` | src/components/FileNode.jsx:91-98 | Enter toggles a folder and does nothing for a file; Delete asks `onDelete(node.id)` for any node; other keys do nothing |
| `FileNode.NodeView.TreeItemFocus` | src/components/FileNode.jsx:99 | focusing the tree item selects the node |
| `FileNode.NodeView.TreeItemClick` | src/components/FileNode.jsx:100-105 | a click selects the node first, then toggles it if it is a folder |
| `FileNode.NodeView.RowClick` | src/components/FileNode.jsx:61-64 | a click on the row selects the node |
| `FileNode.NodeView.DeleteClick` | src/components/FileNode.jsx:158-166 | the delete control asks `onDelete(node.id)` whatever the node's type; while the name is being edited the control is hidden and nothing is asked |
| `FileNode.NodeView.AddClick` | src/components/FileNode.jsx:168-191 | the add controls exist only on a folder whose name is not being edited, and ask `onAdd(node.id, isFolder)`; otherwise nothing is asked |
| `FileExplorer.NewNode` | src/components/FileExplorer.jsx:72-79 | the created node is unnamed, in edit mode and open; it is a folder, with a children array, exactly when a folder was asked for; its subtree holds only its own id |
| `FileExplorer.DeletedLabel` | src/components/FileExplorer.jsx:67 | the label is never empty: the node's name when the node exists and is named, "Item" when it is missing or unnamed |
| `FileExplorer.AddThenDeleteOnlyOpensParent` | src/components/FileExplorer.jsx:63-83 | creating a node with a fresh id and then deleting it gives back the tree, except that the parent stays open and has a children array |
| `FileExplorer.Explorer.constructor` | src/components/FileExplorer.jsx:7-8 | the tree starts as the initial forest, with nothing selected and an empty message |
| `FileExplorer.Explorer.SetNode` | src/components/FileExplorer.jsx:41-48 | every node with the id that is not nested under another match is replaced by the updated node, which lookup then finds; a missing id leaves the tree as it was; a node no longer being edited is announced as "Folder/File renamed to <name>"; otherwise the message is kept |
| `FileExplorer.Explorer.OnDelete` | src/components/FileExplorer.jsx:63-68 | the tree becomes the delete's result and the id is no longer found; the message is "<name> deleted", or "Item deleted" when the node is missing or unnamed; distinct ids stay distinct |
| `FileExplorer.Explorer.OnAdd` | src/components/FileExplorer.jsx:70-83 | an unnamed, editing, open node is added (with an empty children array iff a folder), and "Folder created" or "File created" is announced; a missing parent leaves the tree as it was; with an existing parent and a fresh id, the new node is found again and distinct ids stay distinct |
| `FileExplorer.Explorer.SetSelectedId` | src/components/FileExplorer.jsx:8 | the selection becomes the given id |
| `FileExplorer.Explorer.Dispatch` | src/components/FileExplorer.jsx:150-161 | each callback a node calls changes the tree, the selection and the message exactly as the matching handler does; a rejected rename changes nothing |

## Left out

- Up/Down arrow navigation over the visible rows: the code has no such handler.
- Styling, the hover state `isHovered`, icons, ARIA attributes and the DOM
  focus of the name field (src/components/FileNode.jsx:31-35): these are
  presentation only. The row controls are shown only under
  `isHovered && !isEditing` (src/components/FileNode.jsx:145): `StartRename`,
  `DeleteClick` and `AddClick` model the `!isEditing` half and take the row
  as hovered.
- The alert text: a rejected rename is the `Rejected` request and changes no
  state.
- `Date.now().toString()`: `OnAdd` takes the new id as the parameter `newId`.
  The round trip and uniqueness properties require it to be fresh.
- `initialData` (src/data/initialData) is not part of this model. The
  constructor takes the initial forest as a parameter.
- React rendering and scheduling: handlers read the props and state of the
  last render, and requests are applied one after another to the current
  state. A blur event fired when the name field unmounts is not modelled.
- `handleToggle` (src/components/FileNode.jsx:37-42) is not attached to any
  element; `HandleToggle` models it, and the toggles that run are the inline
  ones at lines 93 and 103 (`TreeItemKeyDown`, `TreeItemClick`).
- `isSelected` (src/components/FileNode.jsx:25) is computed but not used in
  the markup, so it is not modelled.
- src/components/IconCard.jsx and src/App.jsx: presentation and the
  application shell, with no logic.
