/** The MindMap object: the data tree it owns, and the laid-out hierarchy it
    redraws from after each change. */
module MindMaps {
  import opened Tree
  import opened Search
  import opened Insertion
  import opened Layout

  class MindMap {
    /** The data tree that `addNode` edits. */
    var data: Node
    /** The laid-out nodes of the last `update`. */
    var nodes: array<Placed>

    /** The drawing is in step with the data: every node of the tree is laid
        out on the ring of its depth. */
    ghost predicate Valid()
      reads this, nodes
    {
      nodes[..] == RadialLayout(data)
    }

    /** A new map holds a root called "Root" with an empty child list, drawn
        at the centre. */
    constructor ()
      ensures Valid() && fresh(nodes)
      ensures data == InitialTree()
      ensures nodes.Length == 1 && nodes[0] == Placed("Root", 0, 0)
    {
      data := InitialTree();
      nodes := new Placed[0];
      new;
      Update();
      RadialLayoutPlacesEveryNode(data);
      assert Size(data) == 1 by { assert SizeFrom(data, 0) == 0; }
    }

    /** Rebuilds the hierarchy from the data tree and places each node at its
        depth times the level spacing. */
    method Update()
      modifies this
      ensures Valid() && fresh(nodes)
      ensures data == old(data)
    {
      var h := Hierarchy(data);
      var a := new Placed[|h|](k requires 0 <= k < |h| => h[k]);
      NormalizeRadii(a);
      nodes := a;
    }

    /** Adds a leaf called `newNodeName` under the first node, in pre-order,
        called `parentName`, then lays the map out again. When no node has
        that name, the map is left as it was (the source only logs it). */
    method AddNode(parentName: string, newNodeName: string)
      requires Valid()
      modifies this
      ensures Valid()
      ensures data == AddNodeTo(old(data), parentName, newNodeName)
      ensures !Contains(old(data), parentName) ==> data == old(data) && nodes == old(nodes)
      ensures Contains(old(data), parentName) ==>
                var p := FindPath(old(data), parentName).value;
                data == InsertAt(old(data), p, newNodeName) &&
                |nodes[..]| == |old(nodes[..])| + 1 &&
                exists k :: 0 <= k < nodes.Length &&
                  nodes[k] == Placed(newNodeName, |p| + 1, LevelSpacing * (|p| + 1))
    {
      NotFoundIffAbsent(data, parentName);
      var parent := FindNode(data, parentName);
      if parent.Some? {
        var p := parent.value;
        ghost var before := data;
        data := InsertAt(data, p, newNodeName);
        Update();
        InsertAtSize(before, p, newNodeName);
        InsertAtNewLeaf(before, p, newNodeName);
        var leafPath := p + [|Kids(NodeAt(before, p))|];
        RadialLayoutDrawsEveryNode(data, leafPath);
      }
    }
  }
}
