/**
 The tree as a value: node objects in their places. The methods of KdTree rewrite the links of the
 nodes and carry such a shape as their specification.
 */
module KdShape {
  import opened KdGeometry

  class Node {
    const value: Item
    var parent: Node?
    var left: Node?
    var right: Node?

    constructor (value: Item, parent: Node?)
      ensures this.value == value && this.parent == parent && left == null && right == null
    {
      this.value := value;
      this.parent := parent;
      left, right := null, null;
    }
  }

  datatype Shape = Nil | Fork(left: Shape, node: Node, right: Shape)

  // A position: false goes left, true goes right.
  type Path = seq<bool>

  function Size(s: Shape): nat {
    match s
    case Nil => 0
    case Fork(l, _, r) => Size(l) + 1 + Size(r)
  }

  ghost function Nodes(s: Shape): set<Node> {
    match s
    case Nil => {}
    case Fork(l, n, r) => Nodes(l) + {n} + Nodes(r)
  }

  // The stored values.
  ghost function Values(s: Shape): multiset<Item> {
    match s
    case Nil => multiset{}
    case Fork(l, n, r) => Values(l) + multiset{n.value} + Values(r)
  }

  // No node object occurs twice.
  ghost predicate Proper(s: Shape) {
    match s
    case Nil => true
    case Fork(l, n, r) =>
      Proper(l) && Proper(r) && n !in Nodes(l) && n !in Nodes(r) && Nodes(l) !! Nodes(r)
  }

  function Root(s: Shape): Node? {
    if s.Nil? then null else s.node
  }

  function Child(s: Shape, side: bool): Shape
    requires s.Fork?
  {
    if side then s.right else s.left
  }

  function WithChild(s: Shape, side: bool, t: Shape): Shape
    requires s.Fork?
  {
    if side then Fork(s.left, s.node, t) else Fork(t, s.node, s.right)
  }

  predicate ValidPath(s: Shape, path: Path) {
    path == [] || (s.Fork? && ValidPath(Child(s, path[0]), path[1..]))
  }

  function At(s: Shape, path: Path): Shape
    requires ValidPath(s, path)
  {
    if path == [] then s else At(Child(s, path[0]), path[1..])
  }

  function ReplaceAt(s: Shape, path: Path, t: Shape): Shape
    requires ValidPath(s, path)
  {
    if path == [] then t
    else WithChild(s, path[0], ReplaceAt(Child(s, path[0]), path[1..], t))
  }

  // The order check_tree verifies: on every level, left <= node <= right, with equal keys on both sides.
  ghost predicate KdOrdered(K: nat, s: Shape, level: nat)
    requires K > 0
  {
    match s
    case Nil => true
    case Fork(l, n, r) =>
      && (forall x :: x in Nodes(l) ==> !Less(level % K, n.value, x.value))
      && (forall x :: x in Nodes(r) ==> !Less(level % K, x.value, n.value))
      && KdOrdered(K, l, level + 1)
      && KdOrdered(K, r, level + 1)
  }

  lemma AtNodes(s: Shape, path: Path)
    requires ValidPath(s, path)
    ensures Nodes(At(s, path)) <= Nodes(s)
    ensures Size(At(s, path)) <= Size(s)
  {
    if path != [] {
      AtNodes(Child(s, path[0]), path[1..]);
    }
  }

  lemma AtProper(s: Shape, path: Path)
    requires ValidPath(s, path) && Proper(s)
    ensures Proper(At(s, path))
  {
    if path != [] {
      AtProper(Child(s, path[0]), path[1..]);
    }
  }

  lemma AtAppend(s: Shape, p: Path, q: Path)
    requires ValidPath(s, p)
    ensures ValidPath(s, p + q) <==> ValidPath(At(s, p), q)
    ensures ValidPath(s, p + q) ==> At(s, p + q) == At(At(s, p), q)
  {
    if p == [] {
      assert p + q == q;
    } else {
      assert (p + q)[0] == p[0] && (p + q)[1..] == p[1..] + q;
      AtAppend(Child(s, p[0]), p[1..], q);
    }
  }

  lemma ReplaceAppend(s: Shape, p: Path, q: Path, t: Shape)
    requires ValidPath(s, p) && ValidPath(At(s, p), q)
    ensures ValidPath(s, p + q)
    ensures ReplaceAt(s, p + q, t) == ReplaceAt(s, p, ReplaceAt(At(s, p), q, t))
  {
    AtAppend(s, p, q);
    if p == [] {
      assert p + q == q;
    } else {
      assert (p + q)[0] == p[0] && (p + q)[1..] == p[1..] + q;
      ReplaceAppend(Child(s, p[0]), p[1..], q, t);
    }
  }

  lemma ReplaceValid(s: Shape, path: Path, t: Shape)
    requires ValidPath(s, path)
    ensures ValidPath(ReplaceAt(s, path, t), path)
    ensures At(ReplaceAt(s, path, t), path) == t
  {
    if path != [] {
      ReplaceValid(Child(s, path[0]), path[1..], t);
    }
  }

  lemma ReplaceTwice(s: Shape, path: Path, t: Shape, u: Shape)
    requires ValidPath(s, path)
    ensures ValidPath(ReplaceAt(s, path, t), path)
    ensures ReplaceAt(ReplaceAt(s, path, t), path, u) == ReplaceAt(s, path, u)
  {
    if path != [] {
      ReplaceTwice(Child(s, path[0]), path[1..], t, u);
    }
  }

  lemma ReplaceSelf(s: Shape, path: Path)
    requires ValidPath(s, path)
    ensures ReplaceAt(s, path, At(s, path)) == s
  {
    if path != [] {
      ReplaceSelf(Child(s, path[0]), path[1..]);
    }
  }

  // Replacing a subtree changes the set of nodes by exactly the subtree's nodes.
  lemma ReplaceNodes(s: Shape, path: Path, t: Shape)
    requires ValidPath(s, path) && Proper(s)
    requires Proper(t) && Nodes(t) !! Nodes(s) - Nodes(At(s, path))
    ensures Nodes(ReplaceAt(s, path, t)) == Nodes(s) - Nodes(At(s, path)) + Nodes(t)
    ensures Proper(ReplaceAt(s, path, t))
  {
    hide Size;
    if path != [] {
      var c := Child(s, path[0]);
      AtNodes(c, path[1..]);
      ReplaceNodes(c, path[1..], t);
    }
  }

  // The order survives when a subtree is replaced by one that is ordered and brings in only
  // nodes that the enclosing levels already bounded.
  lemma ReplaceOrdered(K: nat, s: Shape, path: Path, t: Shape, level: nat)
    requires K > 0 && ValidPath(s, path) && Proper(s)
    requires KdOrdered(K, s, level) && KdOrdered(K, t, level + |path|)
    requires Proper(t) && Nodes(t) <= Nodes(At(s, path))
    ensures KdOrdered(K, ReplaceAt(s, path, t), level)
  {
    if path != [] {
      var c := Child(s, path[0]);
      AtNodes(c, path[1..]);
      ReplaceOrdered(K, c, path[1..], t, level + 1);
      ReplaceNodes(c, path[1..], t);
    }
  }

  lemma AtOrdered(K: nat, s: Shape, path: Path, level: nat)
    requires K > 0 && ValidPath(s, path) && KdOrdered(K, s, level)
    ensures KdOrdered(K, At(s, path), level + |path|)
  {
    if path != [] {
      AtOrdered(K, Child(s, path[0]), path[1..], level + 1);
    }
  }

  // The order in coordinates: below a node at depth d, dimension d % K is at most that of the node on its
  // left, and at least that on its right.
  lemma OrderInCoordinates(K: nat, s: Shape, path: Path, x: Node)
    requires K > 0 && KdOrdered(K, s, 0) && ValidPath(s, path) && At(s, path).Fork?
    requires K <= |x.value.at| && K <= |At(s, path).node.value.at|
    ensures var n, d := At(s, path).node.value.at, |path| % K;
      && (x in Nodes(At(s, path).left) ==> x.value.at[d] <= n[d])
      && (x in Nodes(At(s, path).right) ==> n[d] <= x.value.at[d])
  {
    AtOrdered(K, s, path, 0);
  }

  // Where a node sits.
  ghost function Find(s: Shape, n: Node): (path: Path)
    requires n in Nodes(s)
    ensures ValidPath(s, path) && At(s, path).Fork? && At(s, path).node == n
  {
    if s.node == n then []
    else if n in Nodes(s.left) then [false] + Find(s.left, n)
    else [true] + Find(s.right, n)
  }

  // The leftmost and the rightmost node, or the header of an empty tree.
  function Leftmost(s: Shape, header: Node): Node {
    if s.Nil? then header
    else if s.left.Nil? then s.node
    else Leftmost(s.left, header)
  }

  function Rightmost(s: Shape, header: Node): Node {
    if s.Nil? then header
    else if s.right.Nil? then s.node
    else Rightmost(s.right, header)
  }

  lemma ExtremesAreNodes(s: Shape, header: Node)
    requires s.Fork?
    ensures Leftmost(s, header) in Nodes(s) && Rightmost(s, header) in Nodes(s)
  {
  }
}
