/** The mind map's data tree: named nodes with an optional, ordered list of
    children, addressed by paths of child indices. */
module Tree {

  datatype Option<+T> = None | Some(value: T)

  /** A node of the mind map. `children` mirrors the optional `children`
      property of the JavaScript object: `Absent` is a node without the
      property, `Present([])` a node with an empty list. */
  datatype Node = Node(name: string, children: Children)
  datatype Children = Absent | Present(list: seq<Node>)

  /** The position of a node: the child indices to follow from the root. */
  type Path = seq<nat>

  /** The tree a new map starts from: a root called "Root" with an empty
      child list. */
  function InitialTree(): Node {
    Node("Root", Present([]))
  }

  /** A freshly created node, which carries no `children` property. */
  function Leaf(name: string): Node {
    Node(name, Absent)
  }

  /** The children of `t`, with a missing list read as empty. */
  function Kids(t: Node): seq<Node> {
    if t.children.Present? then t.children.list else []
  }

  /** `p` leads from `t` to one of its nodes. */
  predicate ValidPath(t: Node, p: Path)
    decreases |p|
  {
    p == [] || (p[0] < |Kids(t)| && ValidPath(Kids(t)[p[0]], p[1..]))
  }

  /** The node that `p` leads to. */
  function NodeAt(t: Node, p: Path): Node
    requires ValidPath(t, p)
    decreases |p|
  {
    if p == [] then t else NodeAt(Kids(t)[p[0]], p[1..])
  }

  /** `q` is a prefix of `p`: the node at `q` is `p`'s node or one of its ancestors. */
  predicate IsPrefix(q: Path, p: Path) {
    |q| <= |p| && p[..|q|] == q
  }

  /** Pre-order: the node at `p` is visited no later than the node at `q` by a
      depth-first walk that visits a node, then its children left to right.
      That is, `p` is a prefix of `q`, or at the first index where they differ
      `p` takes the earlier child. */
  predicate PreorderLe(p: Path, q: Path)
    decreases |p|
  {
    p == [] || (q != [] && (p[0] < q[0] || (p[0] == q[0] && PreorderLe(p[1..], q[1..]))))
  }

  /** Two distinct nodes are never each visited before the other: pre-order
      is antisymmetric, so the first node in it with a property is unique. */
  lemma {:induction false} PreorderLeAntisymmetric(p: Path, q: Path)
    requires PreorderLe(p, q) && PreorderLe(q, p)
    ensures p == q
    decreases |p|
  {
    if p != [] {
      PreorderLeAntisymmetric(p[1..], q[1..]);
      assert p == [p[0]] + p[1..] && q == [q[0]] + q[1..];
    }
  }

  /** Number of nodes in the tree. */
  function Size(t: Node): nat
    decreases t, |Kids(t)| + 1
  {
    1 + SizeFrom(t, 0)
  }

  /** Number of nodes in the subtrees of the children of `t` from index `i` on. */
  function SizeFrom(t: Node, i: nat): nat
    decreases t, |Kids(t)| - i
  {
    if i >= |Kids(t)| then 0 else Size(Kids(t)[i]) + SizeFrom(t, i + 1)
  }

  /** Size depends on the child list only through the children's sizes:
      appending a subtree `x` adds Size(x) to every suffix sum. */
  lemma {:induction false} SizeFromAppend(t: Node, u: Node, x: Node, i: nat)
    requires Kids(u) == Kids(t) + [x]
    requires i <= |Kids(t)|
    ensures SizeFrom(u, i) == SizeFrom(t, i) + Size(x)
    decreases |Kids(t)| - i
  {
    if i < |Kids(t)| {
      SizeFromAppend(t, u, x, i + 1);
    } else {
      assert SizeFrom(u, i + 1) == 0;
    }
  }

  /** Replacing child `j` by a subtree one node larger adds one node to every
      suffix sum that includes `j`. */
  lemma {:induction false} SizeFromReplace(t: Node, u: Node, j: nat, i: nat)
    requires j < |Kids(t)| && |Kids(u)| == |Kids(t)|
    requires forall k :: 0 <= k < |Kids(t)| && k != j ==> Kids(u)[k] == Kids(t)[k]
    requires Size(Kids(u)[j]) == Size(Kids(t)[j]) + 1
    ensures SizeFrom(u, i) == SizeFrom(t, i) + (if i <= j then 1 else 0)
    decreases |Kids(t)| - i
  {
    if i < |Kids(t)| {
      SizeFromReplace(t, u, j, i + 1);
    }
  }
}
