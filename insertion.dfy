/** The change `addNode` makes to the data tree once the parent is found: a
    new leaf appended to the end of the parent's child list. */
module Insertion {
  import opened Tree
  import opened Search

  /** The parent after the append: a missing child list is created first, then
      the new leaf goes at its end. */
  function AppendChild(parent: Node, newName: string): (r: Node)
    ensures r.name == parent.name && r.children.Present?
    ensures Kids(r) == Kids(parent) + [Leaf(newName)]
    ensures parent.children.Absent? ==> r.children == Present([Leaf(newName)])
  {
    var list := if parent.children.Absent? then [] else parent.children.list;
    parent.(children := Present(list + [Leaf(newName)]))
  }

  /** The tree after the node at `p` received the new leaf `newName`. */
  function InsertAt(t: Node, p: Path, newName: string): (r: Node)
    requires ValidPath(t, p)
    ensures r.name == t.name && r.children.Present?
    decreases |p|
  {
    if p == [] then AppendChild(t, newName)
    else
      var kids := Kids(t);
      t.(children := Present(kids[p[0] := InsertAt(kids[p[0]], p[1..], newName)]))
  }

  /** The data tree after `addNode(parentName, newName)`: unchanged when no
      node is called `parentName`; otherwise the first such node in pre-order
      gets the new leaf and the tree grows by exactly one node. */
  function AddNodeTo(t: Node, parentName: string, newName: string): (r: Node)
    ensures !Contains(t, parentName) ==> r == t
    ensures Contains(t, parentName) ==> Size(r) == Size(t) + 1
    ensures r.name == t.name
  {
    NotFoundIffAbsent(t, parentName);
    match FindPath(t, parentName)
    case None => t
    case Some(p) =>
      InsertAtSize(t, p, newName);
      InsertAtKeeps(t, p, newName, []);
      InsertAt(t, p, newName)
  }

  /** The tree grows by exactly one node. */
  lemma {:induction false} InsertAtSize(t: Node, p: Path, newName: string)
    requires ValidPath(t, p)
    ensures Size(InsertAt(t, p, newName)) == Size(t) + 1
    decreases |p|
  {
    var u := InsertAt(t, p, newName);
    if p == [] {
      var leaf := Leaf(newName);
      SizeFromAppend(t, u, leaf, 0);
      assert SizeFrom(leaf, 0) == 0;
    } else {
      InsertAtSize(Kids(t)[p[0]], p[1..], newName);
      SizeFromReplace(t, u, p[0], 0);
    }
  }

  /** The matched parent keeps its name and earlier children, in order, and
      now ends with the new leaf. */
  lemma {:induction false} InsertAtTarget(t: Node, p: Path, newName: string)
    requires ValidPath(t, p)
    ensures ValidPath(InsertAt(t, p, newName), p)
    ensures NodeAt(InsertAt(t, p, newName), p) == AppendChild(NodeAt(t, p), newName)
    decreases |p|
  {
    if p != [] {
      InsertAtTarget(Kids(t)[p[0]], p[1..], newName);
    }
  }

  /** The new node sits right after the parent's former last child, one level
      below the parent, and is a leaf named `newName`. */
  lemma {:induction false} InsertAtNewLeaf(t: Node, p: Path, newName: string)
    requires ValidPath(t, p)
    ensures var leafPath := p + [|Kids(NodeAt(t, p))|];
            var u := InsertAt(t, p, newName);
            ValidPath(u, leafPath) && NodeAt(u, leafPath) == Leaf(newName)
    decreases |p|
  {
    var k := |Kids(NodeAt(t, p))|;
    var u := InsertAt(t, p, newName);
    if p == [] {
      assert [] + [k] == [k];
      assert [k][1..] == [];
    } else {
      var i := p[0];
      InsertAtNewLeaf(Kids(t)[i], p[1..], newName);
      assert (p + [k])[0] == i;
      assert (p + [k])[1..] == p[1..] + [k];
    }
  }

  /** Nothing else changes: every node of the old tree is still at its place
      with its name; only the matched parent gains a child; and every node that
      is not the parent or one of its ancestors keeps its whole subtree. */
  lemma {:induction false} InsertAtKeeps(t: Node, p: Path, newName: string, q: Path)
    requires ValidPath(t, p) && ValidPath(t, q)
    ensures var u := InsertAt(t, p, newName);
            ValidPath(u, q) &&
            NodeAt(u, q).name == NodeAt(t, q).name &&
            |Kids(NodeAt(u, q))| == |Kids(NodeAt(t, q))| + (if q == p then 1 else 0) &&
            (!IsPrefix(q, p) ==> NodeAt(u, q) == NodeAt(t, q))
    decreases |q|
  {
    var u := InsertAt(t, p, newName);
    if q != [] {
      var i := q[0];
      if p != [] && p[0] == i {
        InsertAtKeeps(Kids(t)[i], p[1..], newName, q[1..]);
        assert q == p <==> q[1..] == p[1..];
        assert IsPrefix(q, p) <==> IsPrefix(q[1..], p[1..]) by {
          if |q| <= |p| {
            assert p[..|q|] == [i] + p[1..][..|q| - 1];
            assert q == [i] + q[1..];
          }
        }
      } else {
        assert Kids(u)[i] == Kids(t)[i];
        assert !IsPrefix(q, p) by {
          if |q| <= |p| { assert p[..|q|][0] != q[0]; }
        }
      }
    }
  }

  /** The only node the new tree has beyond the old ones is the new leaf. */
  lemma {:induction false} InsertAtPaths(t: Node, p: Path, newName: string, q: Path)
    requires ValidPath(t, p)
    ensures ValidPath(InsertAt(t, p, newName), q) <==>
            ValidPath(t, q) || q == p + [|Kids(NodeAt(t, p))|]
    decreases |q|
  {
    var u := InsertAt(t, p, newName);
    var k := |Kids(NodeAt(t, p))|;
    if q != [] {
      var i := q[0];
      if p == [] {
        assert q == [] + [k] <==> (i == k && q[1..] == []);
        if i == k && ValidPath(u, q) {
          assert Kids(Kids(u)[k]) == [];
        }
      } else if p[0] == i {
        InsertAtPaths(Kids(t)[i], p[1..], newName, q[1..]);
        assert q == p + [k] <==> q[1..] == p[1..] + [k];
      } else {
        assert |Kids(u)| == |Kids(t)|;
        if i < |Kids(t)| {
          assert Kids(u)[i] == Kids(t)[i];
        }
        assert q != p + [k];
      }
    }
  }
}
