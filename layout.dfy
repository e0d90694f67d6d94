/** The part of the radial layout that `update` computes itself: every node
    of the hierarchy is placed on the ring of its depth, 100 units per level. */
module Layout {
  import opened Tree

  /** Units of radial distance between one level of the tree and the next. */
  const LevelSpacing: int := 100

  /** One node of the laid-out hierarchy: the name of the data node it wraps,
      its depth (the root has depth 0) and its radial distance. */
  datatype Placed = Placed(name: string, depth: nat, radius: int)

  /** The paths of all nodes of `t` in pre-order: the root, then the nodes of
      each child's subtree, left to right. */
  function PreorderPaths(t: Node): (r: seq<Path>)
    ensures |r| == Size(t) && r[0] == []
    ensures forall k :: 0 <= k < |r| ==> ValidPath(t, r[k])
    ensures forall j, k :: 0 <= j < k < |r| ==> r[j] != r[k]
    decreases t, |Kids(t)| + 1
  {
    [[]] + PathsFrom(t, 0)
  }

  /** The paths of the nodes in the subtrees of the children of `t` from
      index `i` on, in pre-order. */
  function PathsFrom(t: Node, i: nat): (r: seq<Path>)
    ensures |r| == SizeFrom(t, i)
    ensures forall k :: 0 <= k < |r| ==> r[k] != [] && i <= r[k][0] && ValidPath(t, r[k])
    ensures forall j, k :: 0 <= j < k < |r| ==> r[j] != r[k]
    decreases t, |Kids(t)| - i
  {
    if i >= |Kids(t)| then []
    else
      var sub := PreorderPaths(Kids(t)[i]);
      var under := seq(|sub|, k requires 0 <= k < |sub| => [i] + sub[k]);
      assert forall k :: 0 <= k < |under| ==> under[k][0] == i && under[k][1..] == sub[k];
      var rest := PathsFrom(t, i + 1);
      assert forall j, k :: 0 <= j < |under| && 0 <= k < |rest| ==> under[j] != rest[k] by {
        forall j, k | 0 <= j < |under| && 0 <= k < |rest|
          ensures under[j] != rest[k]
        {
          assert under[j][0] == i < rest[k][0];
        }
      }
      under + rest
  }

  /** Every node of the tree appears in the pre-order listing. */
  lemma {:induction false} PreorderListsAll(t: Node, q: Path)
    requires ValidPath(t, q)
    ensures q in PreorderPaths(t)
    decreases t, |Kids(t)| + 1
  {
    if q != [] {
      PathsFromListsAll(t, 0, q);
    }
  }

  /** PreorderListsAll for the children from index `i` on. */
  lemma {:induction false} PathsFromListsAll(t: Node, i: nat, q: Path)
    requires ValidPath(t, q) && q != [] && i <= q[0]
    ensures q in PathsFrom(t, i)
    decreases t, |Kids(t)| - i
  {
    var kid := Kids(t)[i];
    var sub := PreorderPaths(kid);
    var under := seq(|sub|, k requires 0 <= k < |sub| => [i] + sub[k]);
    assert PathsFrom(t, i) == under + PathsFrom(t, i + 1);
    if i == q[0] {
      PreorderListsAll(kid, q[1..]);
      var k :| 0 <= k < |sub| && sub[k] == q[1..];
      assert under[k] == q;
    } else {
      PathsFromListsAll(t, i + 1, q);
    }
  }

  /** The hierarchy `update` lays out, one entry per node, before radial
      placement (every radius still 0). */
  function Hierarchy(t: Node): (h: seq<Placed>)
    ensures |h| == Size(t) && h[0] == Placed(t.name, 0, 0)
    ensures forall k :: 0 <= k < |h| ==>
              exists q :: ValidPath(t, q) && h[k] == Placed(NodeAt(t, q).name, |q|, 0)
  {
    var paths := PreorderPaths(t);
    seq(|paths|, k requires 0 <= k < |paths| => Placed(NodeAt(t, paths[k]).name, |paths[k]|, 0))
  }

  /** The hierarchy after normalisation: each radius set to its depth's ring. */
  function RadialLayout(t: Node): (l: seq<Placed>)
    ensures |l| == Size(t) && l[0] == Placed(t.name, 0, 0)
  {
    var h := Hierarchy(t);
    seq(|h|, k requires 0 <= k < |h| => h[k].(radius := LevelSpacing * h[k].depth))
  }

  /** The laid-out tree has exactly one entry per node: entry k is the node
      at the k-th path of the pre-order listing, which holds every node (and,
      by its own contract, none twice), and it sits at 100 times that node's
      depth. The root comes first,
      at distance 0. */
  lemma RadialLayoutPlacesEveryNode(t: Node)
    ensures var l := RadialLayout(t);
            var paths := PreorderPaths(t);
            |l| == |paths| == Size(t) &&
            l[0] == Placed(t.name, 0, 0) &&
            (forall k :: 0 <= k < |l| ==>
               ValidPath(t, paths[k]) &&
               l[k] == Placed(NodeAt(t, paths[k]).name, |paths[k]|, LevelSpacing * |paths[k]|)) &&
            (forall q :: ValidPath(t, q) ==> q in paths)
  {
    forall q | ValidPath(t, q)
      ensures q in PreorderPaths(t)
    {
      PreorderListsAll(t, q);
    }
  }

  /** Every node of the tree is drawn at 100 times the length of its path. */
  lemma RadialLayoutDrawsEveryNode(t: Node, q: Path)
    requires ValidPath(t, q)
    ensures var l := RadialLayout(t);
            exists k :: 0 <= k < |l| && l[k] == Placed(NodeAt(t, q).name, |q|, LevelSpacing * |q|)
  {
    var paths := PreorderPaths(t);
    var l := RadialLayout(t);
    PreorderListsAll(t, q);
    var k :| 0 <= k < |paths| && paths[k] == q;
    assert l[k] == Placed(NodeAt(t, q).name, |q|, LevelSpacing * |q|);
  }

  /** Every entry of the layout is a node of the tree, drawn at 100 times the
      length of its path: the layout invents no entries. */
  lemma RadialLayoutEntryIsNode(t: Node, k: nat)
    requires k < |RadialLayout(t)|
    ensures var l := RadialLayout(t);
            exists q :: ValidPath(t, q) && l[k] == Placed(NodeAt(t, q).name, |q|, LevelSpacing * |q|)
  {
    var paths := PreorderPaths(t);
    assert ValidPath(t, paths[k]);
    assert RadialLayout(t)[k] == Placed(NodeAt(t, paths[k]).name, |paths[k]|, LevelSpacing * |paths[k]|);
  }

  /** The loop of `update` that overwrites every laid-out node's radial
      distance with its depth times the level spacing; nothing else changes. */
  method NormalizeRadii(nodes: array<Placed>)
    modifies nodes
    ensures forall k :: 0 <= k < nodes.Length ==>
              nodes[k] == old(nodes[k]).(radius := LevelSpacing * old(nodes[k]).depth)
  {
    for i := 0 to nodes.Length
      invariant forall k :: 0 <= k < i ==>
                  nodes[k] == old(nodes[k]).(radius := LevelSpacing * old(nodes[k]).depth)
      invariant forall k :: i <= k < nodes.Length ==> nodes[k] == old(nodes[k])
    {
      nodes[i] := nodes[i].(radius := LevelSpacing * nodes[i].depth);
    }
  }
}
