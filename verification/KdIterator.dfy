/** Iteration over parent links: _M_increment and _M_decrement follow the in-order sequence. */
module KdIterator {
  import opened KdShape
  import opened KdLinks
  import opened KdTree

  // Left, node, right.
  ghost function InOrder(s: Shape): (ns: seq<Node>)
    ensures |ns| == Size(s)
  {
    match s
    case Nil => []
    case Fork(l, n, r) => InOrder(l) + [n] + InOrder(r)
  }

  // How many nodes come before the subtree at `path`.
  ghost function Before(s: Shape, path: Path): nat
    requires ValidPath(s, path)
  {
    if path == [] then 0
    else if path[0] then Size(s.left) + 1 + Before(s.right, path[1..])
    else Before(s.left, path[1..])
  }

  // The place of the node at `path` in the sequence.
  ghost function Rank(s: Shape, path: Path): nat
    requires ValidPath(s, path) && At(s, path).Fork?
  {
    Before(s, path) + Size(At(s, path).left)
  }

  lemma {:induction false} InOrderAt(s: Shape, path: Path)
    requires ValidPath(s, path) && At(s, path).Fork?
    ensures Rank(s, path) < Size(s) && InOrder(s)[Rank(s, path)] == At(s, path).node
  {
    if path != [] {
      InOrderAt(Child(s, path[0]), path[1..]);
    }
  }

  lemma {:induction false} BeforeChild(s: Shape, path: Path, side: bool)
    requires ValidPath(s, path) && At(s, path).Fork?
    ensures ValidPath(s, path + [side]) && At(s, path + [side]) == Child(At(s, path), side)
    ensures Before(s, path + [side]) == Before(s, path) + (if side then Size(At(s, path).left) + 1 else 0)
  {
    AtAppend(s, path, [side]);
    if path == [] {
      assert path + [side] == [side];
      assert Before(Child(s, side), []) == 0;
    } else {
      assert (path + [side])[0] == path[0] && (path + [side])[1..] == path[1..] + [side];
      BeforeChild(Child(s, path[0]), path[1..], side);
    }
  }

  // One step towards the root.
  lemma BeforeUp(s: Shape, path: Path, header: Node)
    requires ValidPath(s, path) && path != [] && At(s, path).Fork? && Proper(s) && header !in Nodes(s)
    ensures var up, side := path[..|path| - 1], path[|path| - 1];
      && ValidPath(s, up) && At(s, up).Fork? && At(s, path) == Child(At(s, up), side)
      && Above(s, path, header) == At(s, up).node && Above(s, path, header) != header
      && Before(s, path) == Before(s, up) + (if side then Size(At(s, up).left) + 1 else 0)
      && (At(s, path).node == Root(At(s, up).left) <==> !side)
      && (At(s, path).node == Root(At(s, up).right) <==> side)
  {
    var up, side := path[..|path| - 1], path[|path| - 1];
    AboveLast(s, path, header);
    assert up + [side] == path;
    BeforeChild(s, up, side);
    AtProper(s, up);
    AtNodes(s, up);
  }

  lemma LinksAt(s: Shape, path: Path, parent: Node)
    requires ValidPath(s, path) && At(s, path).Fork? && Spells(s, Root(s), parent)
    ensures var sub := At(s, path);
      LinksOf(sub.node) == Links(Above(s, path, parent), Root(sub.left), Root(sub.right)) && sub.node in Nodes(s)
  {
    AtNodes(s, path);
    SpellsAt(s, path, Root(s), parent);
    SpellsChildren(At(s, path), At(s, path).node, Above(s, path, parent));
  }

  // The element of the sequence at i, or the header (end) past the last one and before the first.
  ghost function Seat(s: Shape, header: Node, i: int): Node {
    if 0 <= i < Size(s) then InOrder(s)[i] else header
  }

  // An iterator's surroundings: a wired tree with its header.
  ghost predicate Iterable(s: Shape, header: Node)
    reads Nodes(s), header
  {
    && Spells(s, Root(s), header) && header !in Nodes(s)
    && LinksOf(header) == Links(null, Leftmost(s, header), Rightmost(s, header))
  }

  ghost predicate Ready(t: Tree)
    reads t, t.repr, t.header
  {
    t.repr == Nodes(t.shape) && Iterable(t.shape, t.header)
  }

  // Down left links to the first node of a subtree.
  method FirstBelow(t: Tree, start: Node, ghost path: Path) returns (n: Node)
    requires Ready(t) && ValidPath(t.shape, path) && At(t.shape, path).Fork? && At(t.shape, path).node == start
    ensures n == Seat(t.shape, t.header, Before(t.shape, path))
  {
    ghost var s, sub, here := t.shape, At(t.shape, path), path;
    ghost var seat := Before(t.shape, path);
    n := start;
    LinksAt(s, here, t.header);
    while n.left != null
      invariant ValidPath(s, here) && sub == At(s, here) && sub.Fork? && sub.node == n
      invariant n.left == Root(sub.left) && Before(s, here) == seat
      decreases sub
    {
      n := n.left;
      BeforeChild(s, here, false);
      here, sub := here + [false], sub.left;
      LinksAt(s, here, t.header);
    }
    assert Rank(s, here) == seat;
    InOrderAt(s, here);
  }

  // Down right links to the last node of a subtree.
  method LastBelow(t: Tree, start: Node, ghost path: Path) returns (n: Node)
    requires Ready(t) && ValidPath(t.shape, path) && At(t.shape, path).Fork? && At(t.shape, path).node == start
    ensures n == Seat(t.shape, t.header, Before(t.shape, path) + Size(At(t.shape, path)) - 1)
  {
    ghost var s, sub, here := t.shape, At(t.shape, path), path;
    ghost var seat := Before(t.shape, path) + Size(At(t.shape, path)) - 1;
    n := start;
    LinksAt(s, here, t.header);
    while n.right != null
      invariant ValidPath(s, here) && sub == At(s, here) && sub.Fork? && sub.node == n
      invariant n.right == Root(sub.right) && Before(s, here) + Size(sub) == seat + 1
      decreases sub
    {
      n := n.right;
      BeforeChild(s, here, true);
      here, sub := here + [true], sub.right;
      LinksAt(s, here, t.header);
    }
    assert Rank(s, here) == seat;
    InOrderAt(s, here);
  }

  // ++ on an iterator that stands on the node at `path`.
  method Increment(t: Tree, n: Node, ghost path: Path) returns (next: Node)
    requires Ready(t) && ValidPath(t.shape, path) && At(t.shape, path).Fork? && At(t.shape, path).node == n
    ensures next == Seat(t.shape, t.header, Rank(t.shape, path) + 1)
  {
    LinksAt(t.shape, path, t.header);
    if n.right != null {
      BeforeChild(t.shape, path, true);
      next := FirstBelow(t, n.right, path + [true]);
    } else {
      next := ClimbRight(t, n, path);
    }
  }

  // -- on an iterator that stands on the node at `path`.
  method Decrement(t: Tree, n: Node, ghost path: Path) returns (next: Node)
    requires Ready(t) && ValidPath(t.shape, path) && At(t.shape, path).Fork? && At(t.shape, path).node == n
    ensures next == Seat(t.shape, t.header, Rank(t.shape, path) - 1)
  {
    LinksAt(t.shape, path, t.header);
    if n.left != null {
      BeforeChild(t.shape, path, false);
      next := LastBelow(t, n.left, path + [false]);
    } else {
      next := ClimbLeft(t, n, path);
    }
  }

  // -- on end(): the header is recognised by its null parent.
  method DecrementEnd(t: Tree) returns (next: Node?)
    requires Ready(t)
    ensures next == Seat(t.shape, t.header, Size(t.shape) - 1)
  {
    LastSeat(t.shape, t.header);
    next := t.header.right;
  }

  // The ascent of ++: up while coming from a right link; the header counts as a right parent of a
  // root that is itself the rightmost node.
  method ClimbRight(t: Tree, n: Node, ghost path: Path) returns (next: Node)
    requires Ready(t) && ValidPath(t.shape, path) && At(t.shape, path).Fork? && At(t.shape, path).node == n
    requires At(t.shape, path).right == Nil
    ensures next == Seat(t.shape, t.header, Rank(t.shape, path) + 1)
  {
    ghost var s, rank := t.shape, Rank(t.shape, path);
    var header := t.header;
    LinksAt(s, path, header);
    next := n;
    var p := next.parent;
    ghost var here := path;
    while p != null && next == p.right
      invariant next != header ==>
        ValidPath(s, here) && At(s, here).Fork? && At(s, here).node == next && p == Above(s, here, header)
      invariant next != header ==> Before(s, here) + Size(At(s, here)) == rank + 1
      invariant next == header ==> p == null && Size(s) == rank + 1
      invariant p == next.parent
      decreases if next == header then 0 else |here| + 1
    {
      if here != [] {
        BeforeUp(s, here, header);
        here := here[..|here| - 1];
        LinksAt(s, here, header);
      }
      next := p;
      p := next.parent;
    }
    if p != null {
      if here != [] {
        BeforeUp(s, here, header);
        LinksAt(s, here[..|here| - 1], header);
        InOrderAt(s, here[..|here| - 1]);
      }
      next := p;
    }
  }

  // The ascent of --, likewise for left links.
  method ClimbLeft(t: Tree, n: Node, ghost path: Path) returns (next: Node)
    requires Ready(t) && ValidPath(t.shape, path) && At(t.shape, path).Fork? && At(t.shape, path).node == n
    requires At(t.shape, path).left == Nil
    ensures next == Seat(t.shape, t.header, Rank(t.shape, path) - 1)
  {
    ghost var s, rank := t.shape, Rank(t.shape, path);
    var header := t.header;
    LinksAt(s, path, header);
    next := n;
    var p := next.parent;
    ghost var here := path;
    while p != null && next == p.left
      invariant next != header ==>
        ValidPath(s, here) && At(s, here).Fork? && At(s, here).node == next && p == Above(s, here, header)
      invariant next != header ==> Before(s, here) == rank
      invariant next == header ==> p == null && rank == 0
      invariant p == next.parent
      decreases if next == header then 0 else |here| + 1
    {
      if here != [] {
        BeforeUp(s, here, header);
        here := here[..|here| - 1];
        LinksAt(s, here, header);
      }
      next := p;
      p := next.parent;
    }
    if p != null {
      if here != [] {
        BeforeUp(s, here, header);
        LinksAt(s, here[..|here| - 1], header);
        InOrderAt(s, here[..|here| - 1]);
      }
      next := p;
    }
  }

  lemma ValidIsReady(t: Tree)
    requires t.Valid()
    ensures Ready(t)
  {
    t.Reach([]);
    assert LinksOf(t.header) == TreeWiring(t.shape, t.header)[t.header];
  }

  lemma FirstSeat(s: Shape, header: Node)
    ensures Leftmost(s, header) == if s.Nil? then header else InOrder(s)[0]
  {
  }

  lemma LastSeat(s: Shape, header: Node)
    ensures Rightmost(s, header) == if s.Nil? then header else InOrder(s)[Size(s) - 1]
  {
  }

  // Every node has a place in the sequence, and only one.
  lemma {:induction false} PathOfRank(s: Shape, i: nat) returns (path: Path)
    requires i < Size(s)
    ensures ValidPath(s, path) && At(s, path).Fork? && Rank(s, path) == i && At(s, path).node == InOrder(s)[i]
  {
    if i < Size(s.left) {
      var rest := PathOfRank(s.left, i);
      path := [false] + rest;
      assert path[1..] == rest;
    } else if i == Size(s.left) {
      path := [];
    } else {
      var rest := PathOfRank(s.right, i - Size(s.left) - 1);
      path := [true] + rest;
      assert path[1..] == rest;
    }
    InOrderAt(s, path);
  }

  // begin() to end(): every node once, in order, and the loop stops at the header.
  method Traverse(t: Tree) returns (visited: seq<Node>)
    requires t.Valid()
    ensures visited == InOrder(t.shape) && |visited| == t.count
  {
    ValidIsReady(t);
    FirstSeat(t.shape, t.header);
    HeaderIsNoNode(t);
    var it: Node := t.header.left;
    visited := [];
    while it != t.header
      invariant |visited| <= Size(t.shape) && visited == InOrder(t.shape)[..|visited|]
      invariant it == Seat(t.shape, t.header, |visited|) && (it == t.header <==> |visited| == Size(t.shape))
      invariant Ready(t)
      decreases Size(t.shape) - |visited|
    {
      ghost var path := PathOfRank(t.shape, |visited|);
      visited := visited + [it];
      it := Increment(t, it, path);
    }
  }

  // end() back to begin(): the same nodes in reverse.
  method TraverseBack(t: Tree) returns (visited: seq<Node>)
    requires t.Valid()
    ensures |visited| == Size(t.shape)
    ensures forall i :: 0 <= i < |visited| ==> visited[i] == InOrder(t.shape)[|visited| - 1 - i]
  {
    hide Proper;
    hide Wiring;
    ValidIsReady(t);
    HeaderIsNoNode(t);
    visited := [];
    var last := DecrementEnd(t);
    var it: Node := last;
    ghost var n := Size(t.shape);
    while it != t.header
      invariant |visited| <= n
      invariant forall i :: 0 <= i < |visited| ==> visited[i] == InOrder(t.shape)[n - 1 - i]
      invariant it == Seat(t.shape, t.header, n - 1 - |visited|) && (it == t.header <==> |visited| == n)
      invariant Ready(t)
      decreases n - |visited|
    {
      ghost var path := PathOfRank(t.shape, n - 1 - |visited|);
      assert it == InOrder(t.shape)[n - 1 - |visited|];
      visited := visited + [it];
      it := Decrement(t, it, path);
    }
  }

  lemma HeaderIsNoNode(t: Tree)
    requires t.Valid()
    ensures forall i :: 0 <= i < Size(t.shape) ==> InOrder(t.shape)[i] != t.header
  {
    forall i | 0 <= i < Size(t.shape)
      ensures InOrder(t.shape)[i] != t.header
    {
      var path := PathOfRank(t.shape, i);
      AtNodes(t.shape, path);
    }
  }
}
