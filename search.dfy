/** Name lookup in the mind map: the depth-first, pre-order search that
    `addNode` runs to find the parent of a new node. */
module Search {
  import opened Tree

  /** The position of the first node, in pre-order, whose name is `name`, or
      None when there is none. A node is tested before its children, and the
      children are searched left to right, each subtree completely before the
      next; a missing child list is not searched. */
  function FindPath(t: Node, name: string): (r: Option<Path>)
    ensures r.Some? ==> ValidPath(t, r.value) && NodeAt(t, r.value).name == name
    decreases t, |Kids(t)| + 1
  {
    if t.name == name then Some([])
    else if t.children.Absent? then None
    else FindAmong(t, 0, name)
  }

  /** The search continued over the children of `t` from index `i` on; a hit
      in child `j` is returned as a path starting with `j`. */
  function FindAmong(t: Node, i: nat, name: string): (r: Option<Path>)
    ensures r.Some? ==> r.value != [] && i <= r.value[0]
    ensures r.Some? ==> ValidPath(t, r.value) && NodeAt(t, r.value).name == name
    decreases t, |Kids(t)| - i
  {
    if i >= |Kids(t)| then None
    else match FindPath(Kids(t)[i], name)
      case Some(p) => Some([i] + p)
      case None => FindAmong(t, i + 1, name)
  }

  /** Completeness and first-match: whenever the node at `q` is named `name`,
      the search finds a node, and the one it finds comes no later than `q` in
      pre-order. With duplicate names, the earliest one in pre-order wins. */
  lemma {:induction false} FindPathFirst(t: Node, name: string, q: Path)
    requires ValidPath(t, q) && NodeAt(t, q).name == name
    ensures FindPath(t, name).Some?
    ensures PreorderLe(FindPath(t, name).value, q)
    decreases t, |Kids(t)| + 1
  {
    if t.name != name {
      assert q != [];
      FindAmongFirst(t, 0, name, q);
    }
  }

  /** FindPathFirst for the search over the children from index `i` on, for a
      node `q` that lies in a child at index `i` or later. */
  lemma {:induction false} FindAmongFirst(t: Node, i: nat, name: string, q: Path)
    requires ValidPath(t, q) && NodeAt(t, q).name == name
    requires q != [] && i <= q[0]
    ensures FindAmong(t, i, name).Some?
    ensures PreorderLe(FindAmong(t, i, name).value, q)
    decreases t, |Kids(t)| - i
  {
    var kid := Kids(t)[i];
    if i == q[0] {
      FindPathFirst(kid, name, q[1..]);
      var p := FindPath(kid, name).value;
      assert ([i] + p)[1..] == p;
    } else if FindPath(kid, name).None? {
      FindAmongFirst(t, i + 1, name, q);
    }
  }

  /** The search result is THE first match: any named node that comes no
      later in pre-order than every named node is the one the search returns. */
  lemma FindPathIsEarliest(t: Node, name: string, p: Path)
    requires ValidPath(t, p) && NodeAt(t, p).name == name
    requires forall q :: ValidPath(t, q) && NodeAt(t, q).name == name ==> PreorderLe(p, q)
    ensures FindPath(t, name) == Some(p)
  {
    FindPathFirst(t, name, p);
    var f := FindPath(t, name).value;
    PreorderLeAntisymmetric(f, p);
  }

  /** Some node of the tree is called `name`. */
  ghost predicate Contains(t: Node, name: string) {
    exists q :: ValidPath(t, q) && NodeAt(t, q).name == name
  }

  /** The search comes back empty exactly when no node of the tree carries
      the name. */
  lemma NotFoundIffAbsent(t: Node, name: string)
    ensures FindPath(t, name).None? <==> !Contains(t, name)
  {
    forall q | ValidPath(t, q) && NodeAt(t, q).name == name
      ensures FindPath(t, name).Some?
    {
      FindPathFirst(t, name, q);
    }
    if FindPath(t, name).Some? {
      var p := FindPath(t, name).value;
      assert ValidPath(t, p) && NodeAt(t, p).name == name;
    }
  }

  /** The search as the source writes it: a node is checked, then a loop over
      its children searches each one recursively and returns the first hit. */
  method FindNode(t: Node, name: string) returns (r: Option<Path>)
    ensures r == FindPath(t, name)
    decreases t
  {
    if t.name == name {
      return Some([]);
    }
    if t.children.Present? {
      var kids := t.children.list;
      var i := 0;
      while i < |kids|
        invariant 0 <= i <= |kids|
        invariant FindPath(t, name) == FindAmong(t, i, name)
      {
        var found := FindNode(kids[i], name);
        if found.Some? {
          return Some([i] + found.value);
        }
        i := i + 1;
      }
    }
    return None;
  }
}
