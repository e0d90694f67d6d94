# Mind map tree model

A Dafny model of the data side of the `MindMap` class in `mindmap.js`. The class
is a radial mind map drawn with D3. It owns a tree of named nodes, `{name,
children?}`, which starts as a root called "Root" with an empty child list.
`addNode(parentName, newNodeName)` searches that tree depth first, in pre-order,
for the first node called `parentName`. When it finds one, it appends the leaf
`{name: newNodeName}` to the end of that node's children, creating the list if
it is missing, and redraws the map. When no node has the name, the tree stays
as it was and a diagnostic is logged. Every redraw (`update`) sets each laid-out
node's radial distance to 100 times its depth: the rings are 100 units apart
(mindmap.js:62).

Modules:

- `Tree` (tree.dfy): the node datatype, with `Children = Absent | Present(list)`
  for the optional `children` property. It also defines paths of child indices
  that address nodes, the node count `Size`, and the pre-order relation
  `PreorderLe` on paths.
- `Search` (search.dfy): the `findNode` closure. `FindPath` is the recursive
  specification. `FindNode` is the source's form: a check of the node, then a
  loop over the children. Lemmas prove that the search finds exactly the first
  match in pre-order, and that it comes back empty exactly when the name is
  absent.
- `Insertion` (insertion.dfy): the append to the found parent (`AppendChild`,
  `InsertAt`) and the whole data effect of `addNode` (`AddNodeTo`). Lemmas
  prove that the node count grows by one, that the parent ends with the new
  leaf, and that nothing else changes.
- `Layout` (layout.dfy): the hierarchy `update` lays out, one entry per node,
  and the loop that puts each node on the ring of its depth.
- `MindMaps` (mindmap.dfy): the `MindMap` class. It has the data tree and the
  laid-out nodes as fields, plus its constructor, `Update` and `AddNode`.

## Model

| member | source | states |
|---|---|---|
| `Search.FindPath` | mindmap.js:31-40 | a found path leads to a node of the tree whose name is the one searched for |
| `Search.FindAmong` | mindmap.js:33-38 | the loop over the children from index i returns a path into child i or a later one, and it leads to a node with the name |
| `Search.FindPathFirst` | mindmap.js:31-40 | whenever some node is called `name`, the search finds a node, and that node comes no later in pre-order (node, then children left to right) than any node called `name`: duplicates resolve to the earliest |
| `Search.FindPathIsEarliest` | mindmap.js:31-40 | a named node that precedes every other named node in pre-order is exactly the result of the search |
| `Search.NotFoundIffAbsent` | mindmap.js:31-43 | the search returns nothing if and only if no node of the tree has the name |
| `Search.FindNode` | mindmap.js:31-40 | the looping, recursive search returns the same result as the specification `FindPath` |
| `Tree.PreorderLeAntisymmetric` | mindmap.js:31-40 | two distinct nodes are never each visited before the other, so "the first match" is a single node |
| `Insertion.AppendChild` | mindmap.js:44-45 | the parent keeps its name, gains a child list if it had none, and its children become the old ones, in order, followed by the leaf `{name: newNodeName}`; if there was no list, the new one holds only the new leaf |
| `Insertion.AddNodeTo` | mindmap.js:42-52 | if no node is called `parentName`, the tree is unchanged; otherwise it has exactly one node more; the root's name never changes |
| `Insertion.InsertAtSize` | mindmap.js:44-45 | appending at a found parent grows the node count by exactly one |
| `Insertion.InsertAtTarget` | mindmap.js:44-45 | the node at the parent's position is the old parent with the new leaf appended to its children |
| `Insertion.InsertAt` | mindmap.js:42-45 | the tree after the append keeps the root's name and has a child list at the root; its behaviour is stated by `InsertAtSize`, `InsertAtTarget`, `InsertAtNewLeaf`, `InsertAtKeeps` and `InsertAtPaths` |
| `Insertion.InsertAtNewLeaf` | mindmap.js:45 | the new node sits at the parent's path extended by the parent's former child count, just after its former last child and so one level deeper, and is the leaf `{name: newNodeName}` without a child list |
| `Insertion.InsertAtKeeps` | mindmap.js:42-45 | every old node is still at its position with its name; only the parent's child count grows, by one; every node that is not the parent or one of its ancestors keeps its whole subtree, so the parent's earlier children are untouched |
| `Insertion.InsertAtPaths` | mindmap.js:45 | the new tree's nodes are exactly the old ones plus the new leaf |
| `Layout.PreorderPaths` | mindmap.js:23 | the hierarchy lists as many entries as the tree has nodes, the root first, each entry a node of the tree and no node listed twice |
| `Layout.PathsFrom` | mindmap.js:23 | the entries for the children from index i on are as many as the nodes in those subtrees, each a node of the tree inside child i or a later one, none listed twice |
| `Layout.PreorderListsAll` | mindmap.js:23 | every node of the tree appears in the hierarchy |
| `Layout.Hierarchy` | mindmap.js:56-57 | the laid-out descendants number exactly the nodes of the tree, the root first at depth 0, and each entry carries the name of a node of the tree and that node's depth |
| `Layout.RadialLayout` | mindmap.js:61-63 | after normalisation the layout has as many entries as the tree has nodes, and the root comes first at distance 0 |
| `Layout.RadialLayoutPlacesEveryNode` | mindmap.js:61-63 | after normalisation, entry k is the node at the k-th path of `PreorderPaths`, a listing that holds every node of the tree (and, by its contract, none twice) and nothing else, drawn at 100 times that node's depth; the root comes first at distance 0 |
| `Layout.RadialLayoutDrawsEveryNode` | mindmap.js:61-63 | every node of the tree has an entry at 100 times its depth |
| `Layout.RadialLayoutEntryIsNode` | mindmap.js:61-63 | every entry of the layout is a node of the tree at 100 times its depth: the layout invents no entries |
| `Layout.NormalizeRadii` | mindmap.js:61-63 | the loop sets every laid-out node's radius to 100 times its depth and changes nothing else |
| `MindMaps.MindMap.constructor` | mindmap.js:22-27 | a new map holds the root "Root" with an empty child list, laid out as a single node at distance 0 |
| `MindMaps.MindMap.Update` | mindmap.js:55-63 | the data tree is kept, and the laid-out nodes are rebuilt from it, each on the ring of its depth |
| `MindMaps.MindMap.AddNode` | mindmap.js:30-53 | the new data tree is `AddNodeTo` of the old one; on a miss neither the tree nor the drawing changes; on a hit the leaf goes under the first match in pre-order, the layout gains one entry, and the new leaf is drawn one ring beyond its parent |

## Left out

- D3 rendering is not modelled: the SVG group and its transform, the keyed enter/merge/exit of links and nodes, circle and text styling, and the hover radius changes. These are calls into a library whose code is not part of this model.
- Zoom and drag handlers are not modelled. They are event-driven UI with floating-point transforms.
- The angular placement by `d3.tree`, its separation rule and its size are not modelled. This is foreign code computing floating-point angles. `Placed` has no angle. The radius `d3.tree` assigns before normalisation is not modelled either: `Hierarchy` starts each entry at radius 0, and the normalisation loop overwrites it.
- `Layout.Hierarchy`: `d3.hierarchy(...).descendants()` lists nodes breadth first. The model lists them in pre-order. The normalisation treats each entry on its own, so the order does not change any radius.
- `Layout.NormalizeRadii`: the source writes the `y` field of each hierarchy object. The model writes array elements that are values, so two references to one laid-out node cannot be expressed. `d3.hierarchy` creates a distinct object per node anyway.
- `MindMaps.MindMap.AddNode`: the source edits the found parent object in place. The model reassigns `data` to a new tree value with the same contents. `d3.hierarchy` keeps a reference to each data node (mindmap.js:23, mindmap.js:46), but the only field read through it is `name` (mindmap.js:107), and the append never changes a name, so the two are indistinguishable.
- The `x0`/`y0` bookkeeping on the hierarchy root is not modelled, because nothing in mindmap.js or main.js reads it.
- The `console.error` diagnostic for a missing parent is not modelled. It is output, and the model keeps only its outcome: no change.
- Non-string arguments are not modelled. JavaScript accepts any value for the names; the model takes strings.
- `main.js` is not part of this model. It builds the map through a factory and subscribes to an `updated` event, and neither is defined in mindmap.js or main.js.
