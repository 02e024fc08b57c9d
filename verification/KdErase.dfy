/** Insertion and erasure on shapes: what the pointer surgery of KdTree computes, and why it is right. */
module KdErase {
  import opened KdGeometry
  import opened KdShape

  // ---------------------------------------------------------------- insertion

  ghost function InsertAt(K: nat, s: Shape, n: Node, level: nat): Shape
    requires K > 0
  {
    match s
    case Nil => Fork(Nil, n, Nil)
    case Fork(l, m, r) =>
      if Less(level % K, n.value, m.value) then Fork(InsertAt(K, l, n, level + 1), m, r)
      else Fork(l, m, InsertAt(K, r, n, level + 1))
  }

  // The empty place where a value is put.
  ghost function InsertPath(K: nat, s: Shape, v: Item, level: nat): Path
    requires K > 0
  {
    match s
    case Nil => []
    case Fork(l, m, r) =>
      if Less(level % K, v, m.value) then [false] + InsertPath(K, l, v, level + 1)
      else [true] + InsertPath(K, r, v, level + 1)
  }

  lemma InsertAddsOne(K: nat, s: Shape, n: Node, level: nat)
    requires K > 0 && Proper(s) && n !in Nodes(s)
    ensures Nodes(InsertAt(K, s, n, level)) == Nodes(s) + {n}
    ensures Proper(InsertAt(K, s, n, level))
    ensures Size(InsertAt(K, s, n, level)) == Size(s) + 1
  {
  }

  lemma {:induction false} InsertKeepsOrder(K: nat, s: Shape, n: Node, level: nat)
    requires K > 0 && Proper(s) && n !in Nodes(s) && KdOrdered(K, s, level)
    ensures KdOrdered(K, InsertAt(K, s, n, level), level)
  {
    match s {
      case Nil =>
      case Fork(l, m, r) =>
        InsertKeepsOrder(K, l, n, level + 1);
        InsertKeepsOrder(K, r, n, level + 1);
        InsertAddsOne(K, l, n, level + 1);
        InsertAddsOne(K, r, n, level + 1);
    }
  }

  lemma InsertAsReplace(K: nat, s: Shape, n: Node, level: nat)
    requires K > 0
    ensures ValidPath(s, InsertPath(K, s, n.value, level))
    ensures At(s, InsertPath(K, s, n.value, level)) == Nil
    ensures InsertAt(K, s, n, level) == ReplaceAt(s, InsertPath(K, s, n.value, level), Fork(Nil, n, Nil))
  {
    match s {
      case Nil =>
      case Fork(l, m, r) =>
        var p := InsertPath(K, s, n.value, level);
        var side := !Less(level % K, n.value, m.value);
        assert p == [side] + InsertPath(K, Child(s, side), n.value, level + 1);
        assert p[1..] == InsertPath(K, Child(s, side), n.value, level + 1);
        InsertAsReplace(K, Child(s, side), n, level + 1);
    }
  }

  // ------------------------------------------------- extreme nodes of a subtree

  // Smaller (max false) or larger (max true) in dimension d.
  predicate Beats(max: bool, d: nat, a: Item, b: Item) {
    if max then Less(d, b, a) else Less(d, a, b)
  }

  // The node chosen by _M_get_j_min / _M_get_j_max: the node itself unless a child's choice is
  // strictly better, the left child's before the right child's.
  ghost function Extreme(max: bool, d: nat, s: Shape): (path: Path)
    requires s.Fork?
    ensures ValidPath(s, path) && At(s, path).Fork?
  {
    var pl := if s.left.Fork? then Extreme(max, d, s.left) else [];
    var c1 := if s.left.Fork? && Beats(max, d, At(s.left, pl).node.value, s.node.value)
              then [false] + pl else [];
    var pr := if s.right.Fork? then Extreme(max, d, s.right) else [];
    if s.right.Fork? && Beats(max, d, At(s.right, pr).node.value, At(s, c1).node.value)
    then [true] + pr else c1
  }

  // Nothing in the subtree beats the chosen node.
  lemma {:induction false} ExtremeIsExtreme(max: bool, d: nat, s: Shape)
    requires s.Fork?
    ensures forall x :: x in Nodes(s) ==> !Beats(max, d, x.value, At(s, Extreme(max, d, s)).node.value)
  {
    var pl := if s.left.Fork? then Extreme(max, d, s.left) else [];
    var c1 := if s.left.Fork? && Beats(max, d, At(s.left, pl).node.value, s.node.value)
              then [false] + pl else [];
    if s.left.Fork? {
      ExtremeIsExtreme(max, d, s.left);
      assert ([false] + pl)[1..] == pl;
    }
    forall x | x in Nodes(s.left) + {s.node}
      ensures !Beats(max, d, x.value, At(s, c1).node.value)
    {
    }
    if s.right.Fork? {
      ExtremeIsExtreme(max, d, s.right);
      var pr := Extreme(max, d, s.right);
      assert ([true] + pr)[1..] == pr;
    }
  }

  // ------------------------------------------------------------------ erasure

  // Which side the replacement comes from: the only child's; with two children, the right one
  // when its root is smaller on this level.
  ghost predicate FromRight(K: nat, s: Shape, level: nat)
    requires K > 0 && s.Fork? && (s.left.Fork? || s.right.Fork?)
  {
    s.left.Nil? || (s.right.Fork? && Less(level % K, s.right.node.value, s.left.node.value))
  }

  // Position of the replacement inside the subtree it is taken from: the minimum of the right
  // one or the maximum of the left one.
  ghost function Replacement(K: nat, s: Shape, level: nat): (path: Path)
    requires K > 0 && s.Fork? && (s.left.Fork? || s.right.Fork?)
    ensures var c := Child(s, FromRight(K, s, level));
            c.Fork? && ValidPath(c, path) && At(c, path).Fork?
  {
    var side := FromRight(K, s, level);
    Extreme(!side, level % K, Child(s, side))
  }

  // The subtree after its root is erased.
  ghost function EraseRoot(K: nat, s: Shape, level: nat): Shape
    requires K > 0 && s.Fork?
    decreases Size(s)
  {
    if s.left.Nil? && s.right.Nil? then Nil
    else
      var side := FromRight(K, s, level);
      var c := Child(s, side);
      var path := Replacement(K, s, level);
      AtNodes(c, path);
      var c' := ReplaceAt(c, path, EraseRoot(K, At(c, path), level + 1 + |path|));
      Promote(s, side, At(c, path).node, c')
  }

  // Taking one node out of a subtree takes it out of the tree.
  lemma TakeOut(s: Shape, path: Path, t: Shape)
    requires ValidPath(s, path) && Proper(s) && At(s, path).Fork?
    requires Proper(t) && Nodes(t) == Nodes(At(s, path)) - {At(s, path).node}
    requires Size(t) == Size(At(s, path)) - 1
    ensures Proper(ReplaceAt(s, path, t))
    ensures Nodes(ReplaceAt(s, path, t)) == Nodes(s) - {At(s, path).node}
    ensures Size(ReplaceAt(s, path, t)) == Size(s) - 1
    ensures At(s, path).node in Nodes(s)
  {
    AtNodes(s, path);
    ReplaceNodes(s, path, t);
    ReplaceSize(s, path, t);
  }

  lemma ReplaceSize(s: Shape, path: Path, t: Shape)
    requires ValidPath(s, path)
    ensures Size(ReplaceAt(s, path, t)) == Size(s) - Size(At(s, path)) + Size(t)
  {
    if path != [] {
      ReplaceSize(Child(s, path[0]), path[1..], t);
    }
  }

  // Exactly the root goes away.
  lemma {:induction false} EraseRootRemovesOne(K: nat, s: Shape, level: nat)
    requires K > 0 && s.Fork? && Proper(s)
    ensures Proper(EraseRoot(K, s, level))
    ensures Nodes(EraseRoot(K, s, level)) == Nodes(s) - {s.node}
    ensures Size(EraseRoot(K, s, level)) == Size(s) - 1
    decreases Size(s)
  {
    hide FromRight;
    hide KdOrdered;
    hide Replacement;
    if s.left.Fork? || s.right.Fork? {
      var c := Child(s, FromRight(K, s, level));
      var path := Replacement(K, s, level);
      var t := EraseRoot(K, At(c, path), level + 1 + |path|);
      AtNodes(c, path);
      AtProper(c, path);
      EraseRootRemovesOne(K, At(c, path), level + 1 + |path|);
      TakeOut(c, path, t);
      Promotion(s, FromRight(K, s, level), At(c, path).node, ReplaceAt(c, path, t));
    }
  }

  // A node of one subtree steps into the root's place.
  ghost function Promote(s: Shape, side: bool, x: Node, c': Shape): Shape
    requires s.Fork?
  {
    if side then Fork(s.left, x, c') else Fork(c', x, s.right)
  }

  lemma Promotion(s: Shape, side: bool, x: Node, c': Shape)
    requires s.Fork? && Proper(s) && x in Nodes(Child(s, side))
    requires Proper(c') && Nodes(c') == Nodes(Child(s, side)) - {x}
    ensures Proper(Promote(s, side, x, c'))
    ensures Nodes(Promote(s, side, x, c')) == Nodes(s) - {s.node}
  {
  }

  lemma PromotionOrdered(K: nat, s: Shape, side: bool, x: Node, c': Shape, level: nat)
    requires K > 0 && s.Fork? && Proper(s) && KdOrdered(K, s, level)
    requires x in Nodes(Child(s, side)) && Nodes(c') <= Nodes(Child(s, side))
    requires KdOrdered(K, c', level + 1)
    requires forall y :: y in Nodes(Child(s, side)) ==> !Beats(!side, level % K, y.value, x.value)
    ensures KdOrdered(K, Promote(s, side, x, c'), level)
  {
  }

  // One level of the argument: an extreme node moves up, the rest of its subtree stays ordered.
  lemma MoveUpOrdered(K: nat, s: Shape, side: bool, path: Path, t: Shape, level: nat)
    requires K > 0 && s.Fork? && Proper(s) && KdOrdered(K, s, level)
    requires Child(s, side).Fork? && path == Extreme(!side, level % K, Child(s, side))
    requires t == EraseRoot(K, At(Child(s, side), path), level + 1 + |path|)
    requires KdOrdered(K, t, level + 1 + |path|)
    ensures KdOrdered(K, Promote(s, side, At(Child(s, side), path).node, ReplaceAt(Child(s, side), path, t)), level)
  {
    hide EraseRoot;
    hide Promote;
    hide Size;
    hide Nodes;
    var c := Child(s, side);
    AtProper(c, path);
    EraseRootRemovesOne(K, At(c, path), level + 1 + |path|);
    ReplaceOrdered(K, c, path, t, level + 1);
    TakeOut(c, path, t);
    ExtremeIsExtreme(!side, level % K, c);
    PromotionOrdered(K, s, side, At(c, path).node, ReplaceAt(c, path, t), level);
  }

  // The weak order holds again on every level after the replacement moved up.
  lemma {:induction false} EraseRootKeepsOrder(K: nat, s: Shape, level: nat, erased: Shape)
    requires K > 0 && s.Fork? && Proper(s) && KdOrdered(K, s, level)
    requires erased == EraseRoot(K, s, level)
    ensures KdOrdered(K, erased, level)
    decreases Size(s)
  {
    if s.left.Nil? && s.right.Nil? {
      assert erased == Nil;
    } else {
      var side := FromRight(K, s, level);
      var c := Child(s, side);
      var path := Replacement(K, s, level);
      AtNodes(c, path);
      AtProper(c, path);
      AtOrdered(K, c, path, level + 1);
      var t := EraseRoot(K, At(c, path), level + 1 + |path|);
      assert erased == Promote(s, side, At(c, path).node, ReplaceAt(c, path, t));
      EraseRootKeepsOrder(K, At(c, path), level + 1 + |path|, t);
      MoveUpOrdered(K, s, side, path, t, level);
    }
  }

  // Erasing the node at `path` of a whole tree.
  ghost function EraseAt(K: nat, s: Shape, path: Path): Shape
    requires K > 0 && ValidPath(s, path) && At(s, path).Fork?
  {
    ReplaceAt(s, path, EraseRoot(K, At(s, path), |path|))
  }

  // The whole tree loses exactly the erased node and stays ordered on every level.
  lemma EraseAtCorrect(K: nat, s: Shape, path: Path)
    requires K > 0 && ValidPath(s, path) && At(s, path).Fork?
    requires Proper(s)
    ensures Proper(EraseAt(K, s, path))
    ensures Nodes(EraseAt(K, s, path)) == Nodes(s) - {At(s, path).node}
    ensures Size(EraseAt(K, s, path)) == Size(s) - 1
    ensures KdOrdered(K, s, 0) ==> KdOrdered(K, EraseAt(K, s, path), 0)
  {
    hide EraseRoot;
    hide KdOrdered;
    hide Proper;
    AtProper(s, path);
    EraseRootRemovesOne(K, At(s, path), |path|);
    TakeOut(s, path, EraseRoot(K, At(s, path), |path|));
    if KdOrdered(K, s, 0) {
      AtOrdered(K, s, path, 0);
      EraseRootKeepsOrder(K, At(s, path), |path|, EraseRoot(K, At(s, path), |path|));
      ReplaceOrdered(K, s, path, EraseRoot(K, At(s, path), |path|), 0);
    }
  }
}
