/** The parent, left and right links that a shape demands of its node objects. */
module KdLinks {
  import opened KdShape

  datatype Links = Links(parent: Node?, left: Node?, right: Node?)

  // Links by node.
  type Memory = map<Node, Links>

  function LinksOf(x: Node): Links
    reads x
  {
    Links(x.parent, x.left, x.right)
  }

  // The node objects hold exactly these links.
  ghost predicate Holds(m: Memory)
    reads m.Keys
  {
    forall x :: x in m.Keys ==> LinksOf(x) == m[x]
  }

  function WithChildLink(k: Links, side: bool, n: Node?): Links {
    if side then k.(right := n) else k.(left := n)
  }

  // The links of a tree of this shape hanging below `parent`.
  ghost function Wiring(s: Shape, parent: Node): (m: Memory)
    ensures m.Keys == Nodes(s)
  {
    match s
    case Nil => map[]
    case Fork(l, x, r) => (Wiring(l, x) + Wiring(r, x))[x := Links(parent, Root(l), Root(r))]
  }

  // The links of a whole tree with its header: the header's left and right links lead to the
  // leftmost and the rightmost node, its parent link is null.
  ghost function TreeWiring(s: Shape, header: Node): Memory {
    Wiring(s, header)[header := Links(null, Leftmost(s, header), Rightmost(s, header))]
  }

  // The nodes below the link `at` are wired as the subtree `sub`.
  ghost predicate Spells(sub: Shape, at: Node?, parent: Node)
    reads Nodes(sub)
  {
    Proper(sub) && at == Root(sub) && Holds(Wiring(sub, parent))
  }

  lemma SpellsChildren(sub: Shape, at: Node?, parent: Node)
    requires Spells(sub, at, parent) && sub.Fork?
    ensures LinksOf(sub.node) == Links(parent, Root(sub.left), Root(sub.right))
    ensures Spells(sub.left, sub.node.left, sub.node)
    ensures Spells(sub.right, sub.node.right, sub.node)
  {
    assert LinksOf(sub.node) == Wiring(sub, parent)[sub.node];
    forall x | x in Nodes(sub.left) ensures LinksOf(x) == Wiring(sub.left, sub.node)[x] {
      assert Wiring(sub, parent)[x] == Wiring(sub.left, sub.node)[x];
    }
    forall x | x in Nodes(sub.right) ensures LinksOf(x) == Wiring(sub.right, sub.node)[x] {
      assert Wiring(sub, parent)[x] == Wiring(sub.right, sub.node)[x];
    }
  }

  // The node whose link leads to the subtree at `path`.
  ghost function Above(s: Shape, path: Path, parent: Node): (a: Node)
    requires ValidPath(s, path)
    ensures path == [] ==> a == parent
    ensures path != [] ==> a in Nodes(s)
  {
    if path == [] then parent else Above(Child(s, path[0]), path[1..], s.node)
  }

  // What the links of one node say.
  lemma WiringAt(s: Shape, path: Path, parent: Node)
    requires ValidPath(s, path) && At(s, path).Fork? && Proper(s)
    ensures var sub := At(s, path);
      sub.node in Nodes(s) &&
      Wiring(s, parent)[sub.node] == Links(Above(s, path, parent), Root(sub.left), Root(sub.right))
  {
    AtNodes(s, path);
    if path != [] {
      AtNodes(Child(s, path[0]), path[1..]);
      WiringAt(Child(s, path[0]), path[1..], s.node);
    }
  }

  // A subtree's links are part of the whole tree's.
  lemma {:induction false} SpellsAt(s: Shape, path: Path, at: Node?, parent: Node)
    requires ValidPath(s, path) && Spells(s, at, parent)
    ensures Spells(At(s, path), Root(At(s, path)), Above(s, path, parent))
  {
    if path != [] {
      SpellsChildren(s, at, parent);
      SpellsAt(Child(s, path[0]), path[1..], Root(Child(s, path[0])), s.node);
    }
  }

  // The link above a subtree sits on the side given by the last step of the path.
  lemma AboveLast(s: Shape, path: Path, parent: Node)
    requires ValidPath(s, path) && path != []
    ensures ValidPath(s, path[..|path| - 1]) && At(s, path[..|path| - 1]).Fork?
    ensures Above(s, path, parent) == At(s, path[..|path| - 1]).node
    ensures At(s, path) == Child(At(s, path[..|path| - 1]), path[|path| - 1])
  {
    var front := path[..|path| - 1];
    if |path| > 1 {
      assert front[1..] == path[1..][..|path[1..]| - 1];
      AboveLast(Child(s, path[0]), path[1..], s.node);
    }
  }

  lemma AboveOutside(s: Shape, path: Path, parent: Node)
    requires ValidPath(s, path) && Proper(s) && (path == [] ==> parent !in Nodes(s))
    ensures Above(s, path, parent) !in Nodes(At(s, path))
  {
    if path != [] {
      AtNodes(Child(s, path[0]), path[1..]);
      AboveOutside(Child(s, path[0]), path[1..], s.node);
    }
  }

  // Outside the subtree only the link above it changes.
  lemma {:induction false} WiringKept(s: Shape, path: Path, parent: Node, t: Shape, x: Node)
    requires ValidPath(s, path) && Proper(s) && Proper(t) && Nodes(t) !! Nodes(s) - Nodes(At(s, path))
    requires x in Nodes(s) && x !in Nodes(At(s, path))
    ensures path != [] && x in Nodes(ReplaceAt(s, path, t))
    ensures Wiring(ReplaceAt(s, path, t), parent)[x] ==
      if x == Above(s, path, parent) then WithChildLink(Wiring(s, parent)[x], path[|path| - 1], Root(t))
      else Wiring(s, parent)[x]
  {
    var c := Child(s, path[0]);
    AtNodes(c, path[1..]);
    ReplaceNodes(c, path[1..], t);
    if x in Nodes(c) {
      WiringKept(c, path[1..], s.node, t, x);
      assert path[1..][|path[1..]| - 1] == path[|path| - 1];
    }
  }

  lemma {:induction false} WiringBrought(s: Shape, path: Path, parent: Node, t: Shape, x: Node)
    requires ValidPath(s, path) && Proper(s) && Proper(t) && Nodes(t) !! Nodes(s) - Nodes(At(s, path))
    requires x in Nodes(t)
    ensures x in Nodes(ReplaceAt(s, path, t))
    ensures Wiring(ReplaceAt(s, path, t), parent)[x] == Wiring(t, Above(s, path, parent))[x]
  {
    if path != [] {
      var c := Child(s, path[0]);
      AtNodes(c, path[1..]);
      ReplaceNodes(c, path[1..], t);
      WiringBrought(c, path[1..], s.node, t, x);
    }
  }

  // The links after the subtree at `path` is exchanged: the new subtree brings its own, the link
  // above it is redirected, and the rest of the tree stays.
  lemma WiringReplace(s: Shape, path: Path, parent: Node, t: Shape)
    requires ValidPath(s, path) && Proper(s) && Proper(t) && Nodes(t) !! Nodes(s) - Nodes(At(s, path))
    ensures var m, m' := Wiring(s, parent), Wiring(ReplaceAt(s, path, t), parent);
      && m'.Keys == m.Keys - Nodes(At(s, path)) + Nodes(t)
      && (forall x :: x in Nodes(t) ==> m'[x] == Wiring(t, Above(s, path, parent))[x])
      && (forall x :: x in m && x !in Nodes(At(s, path)) ==> path != [])
      && (forall x :: x in m && x !in Nodes(At(s, path)) ==>
            m'[x] == if x == Above(s, path, parent) then WithChildLink(m[x], path[|path| - 1], Root(t)) else m[x])
  {
    ReplaceNodes(s, path, t);
    forall x | x in Nodes(t)
      ensures x in Nodes(ReplaceAt(s, path, t))
      ensures Wiring(ReplaceAt(s, path, t), parent)[x] == Wiring(t, Above(s, path, parent))[x]
    {
      WiringBrought(s, path, parent, t, x);
    }
    forall x | x in Nodes(s) && x !in Nodes(At(s, path))
      ensures path != [] && x in Nodes(ReplaceAt(s, path, t))
      ensures Wiring(ReplaceAt(s, path, t), parent)[x] ==
        if x == Above(s, path, parent) then WithChildLink(Wiring(s, parent)[x], path[|path| - 1], Root(t))
        else Wiring(s, parent)[x]
    {
      WiringKept(s, path, parent, t, x);
    }
  }
}
