/** The container: insertion and erasure as rewrites of parent, left and right links. */
module KdTree {
  import opened KdGeometry
  import opened KdShape
  import opened KdLinks
  import opened KdErase

  // What is done with a node when a subtree is erased.
  datatype Visit = Look(n: Node) | Delete(n: Node)

  // A node is deleted once, and not looked at afterwards.
  ghost predicate Careful(visits: seq<Visit>) {
    forall i, j :: 0 <= i < j < |visits| && visits[i].Delete? ==> visits[j].n != visits[i].n
  }

  ghost function Deleted(visits: seq<Visit>): set<Node> {
    set i | 0 <= i < |visits| && visits[i].Delete? :: visits[i].n
  }

  ghost predicate Among(visits: seq<Visit>, ns: set<Node>) {
    forall i :: 0 <= i < |visits| ==> visits[i].n in ns
  }

  lemma VisitsJoin(v: seq<Visit>, w: seq<Visit>)
    requires Careful(v) && Careful(w) && forall i :: 0 <= i < |w| ==> w[i].n !in Deleted(v)
    ensures Careful(v + w) && Deleted(v + w) == Deleted(v) + Deleted(w)
    ensures forall ns :: Among(v, ns) && Among(w, ns) ==> Among(v + w, ns)
  {
    forall n ensures n in Deleted(v + w) <==> n in Deleted(v) + Deleted(w) {
      if n in Deleted(v) {
        var i :| 0 <= i < |v| && v[i] == Delete(n);
        assert (v + w)[i] == Delete(n);
      }
      if n in Deleted(w) {
        var i :| 0 <= i < |w| && w[i] == Delete(n);
        assert (v + w)[|v| + i] == Delete(n);
      }
    }
  }

  lemma NoVisits(ns: set<Node>)
    ensures Careful([]) && Deleted([]) == {} && Among([], ns)
  {
  }

  // Its right link is read, what is on the right erased, its left link read, and it is deleted.
  lemma VisitNode(v: seq<Visit>, n: Node, w: seq<Visit>, right: set<Node>, all: set<Node>)
    requires Careful(v) && Among(v, all) && Careful(w) && Among(w, right) && Deleted(w) == right
    requires right <= all && n in all && n !in right && n !in Deleted(v) && right !! Deleted(v)
    ensures var u := v + ([Look(n)] + w + [Look(n), Delete(n)]);
      Careful(u) && Deleted(u) == Deleted(v) + right + {n} && Among(u, all)
  {
    VisitsJoin([Look(n)], w);
    VisitsJoin([Look(n)] + w, [Look(n), Delete(n)]);
    assert [Look(n), Delete(n)][1] == Delete(n);
    assert Deleted([Look(n), Delete(n)]) == {n};
    VisitsJoin(v, [Look(n)] + w + [Look(n), Delete(n)]);
  }

  class Tree {
    const K: nat
    // The header: parent null, left and right lead to the leftmost and rightmost nodes.
    const header: Node
    var root: Node?
    var count: nat

    ghost var shape: Shape
    ghost var repr: set<Node>

    ghost predicate Valid()
      reads this, header, repr
    {
      Wired() && KdOrdered(K, shape, 0) && count == Size(shape)
    }

    // The links spell out `shape`; nothing is said about the order of the values.
    ghost predicate Wired()
      reads this, header, repr
    {
      && K > 0
      && repr == Nodes(shape)
      && Proper(shape)
      && header !in repr
      && root == Root(shape)
      && Holds(TreeWiring(shape, header))
    }

    constructor (K: nat)
      requires K > 0
      ensures Valid() && shape == Nil && count == 0 && repr == {} && this.K == K && fresh(header)
    {
      this.K := K;
      var h := new Node(Item([], 0), null);
      header := h;
      root, count, shape, repr := null, 0, Nil, {};
      new;
      header.left, header.right := header, header;
    }

    method Insert(v: Item) returns (n: Node)
      requires Valid()
      modifies this, header, repr
      ensures fresh(n) && n.value == v
      ensures shape == InsertAt(K, old(shape), n, 0)
      ensures Valid() && count == old(count) + 1 && repr == old(repr) + {n}
    {
      if root == null {
        n := new Node(v, header);
        count := count + 1;
        root := n;
        header.left := n;
        header.right := n;
        shape, repr := Fork(Nil, n, Nil), {n};
      } else {
        n := InsertBelow(root, v, 0, []);
        InsertAddsOne(K, old(shape), n, 0);
        InsertKeepsOrder(K, old(shape), n, 0);
      }
    }

    // Recursive descent from node `at`, which sits at `path`.
    method InsertBelow(at: Node, v: Item, level: nat, ghost path: Path) returns (n: Node)
      requires Wired() && level == |path|
      requires ValidPath(shape, path) && At(shape, path).Fork? && At(shape, path).node == at
      requires InsertPath(K, shape, v, 0) == path + InsertPath(K, At(shape, path), v, level)
      modifies this, header, repr
      ensures fresh(n) && n.value == v
      ensures shape == InsertAt(K, old(shape), n, 0)
      ensures Wired() && count == old(count) + 1
      decreases Size(At(shape, path))
    {
      hide Proper;
      hide Nodes;
      ghost var m := TreeWiring(shape, header);
      DescendStep(K, shape, path, v, header);
      assert LinksOf(at) == m[at];
      var side := !Less(level % K, v, at.value);
      if !side {
        if at.left == null {
          n := InsertLeft(at, v);
          Grow(at, n, path, side, m);
        } else {
          n := InsertBelow(at.left, v, level + 1, path + [side]);
        }
      } else {
        if at.right == null || at == header.right {
          n := InsertRight(at, v);
          Grow(at, n, path, side, m);
        } else {
          n := InsertBelow(at.right, v, level + 1, path + [side]);
        }
      }
    }

    // A new leaf on the left of `at`; the left edge of the tree moves if `at` was on it.
    method InsertLeft(at: Node, v: Item) returns (n: Node)
      requires at != header
      modifies this`count, header, at
      ensures fresh(n) && n.value == v && LinksOf(n) == Links(at, null, null)
      ensures LinksOf(at) == WithChildLink(old(LinksOf(at)), false, n)
      ensures LinksOf(header) == AtEdge(old(LinksOf(header)), at, n, false)
      ensures count == old(count) + 1
    {
      n := new Node(v, null);
      at.left := n;
      count := count + 1;
      at.left.parent := at;
      if at == header.left {
        header.left := at.left;
      }
    }

    // A new leaf on the right of `at`; the right edge of the tree moves if `at` was on it.
    method InsertRight(at: Node, v: Item) returns (n: Node)
      requires at != header
      modifies this`count, header, at
      ensures fresh(n) && n.value == v && LinksOf(n) == Links(at, null, null)
      ensures LinksOf(at) == WithChildLink(old(LinksOf(at)), true, n)
      ensures LinksOf(header) == AtEdge(old(LinksOf(header)), at, n, true)
      ensures count == old(count) + 1
    {
      n := new Node(v, null);
      at.right := n;
      count := count + 1;
      at.right.parent := at;
      if at == header.right {
        header.right := at.right;
      }
    }

    // The ghost side of hanging a new leaf below `at`: the links now spell out the larger shape.
    ghost method Grow(at: Node, n: Node, path: Path, side: bool, m: Memory)
      requires K > 0 && repr == Nodes(shape) && Proper(shape) && header !in repr && root == Root(shape)
      requires m == TreeWiring(shape, header)
      requires ValidPath(shape, path) && At(shape, path).Fork? && At(shape, path).node == at && at in repr
      requires Child(At(shape, path), side) == Nil && InsertPath(K, shape, n.value, 0) == path + [side]
      requires n !in repr && n != header && LinksOf(n) == Links(at, null, null)
      requires LinksOf(at) == WithChildLink(m[at], side, n)
      requires forall x :: x in repr && x != at ==> LinksOf(x) == m[x]
      requires LinksOf(header) == AtEdge(m[header], at, n, side)
      modifies this`shape, this`repr
      ensures shape == InsertAt(K, old(shape), n, 0)
      ensures Wired()
    {
      var after := LeafShape(K, shape, path, side, n, header);
      shape, repr := after, repr + {n};
    }

    // _M_get_j_min (max false) and _M_get_j_max (max true): the extreme node in the dimension of
    // `dimLevel` below `at`, which is on `level`, with the level it is on.
    function GetExtreme(max: bool, at: Node, dimLevel: nat, level: nat, ghost sub: Shape, ghost parent: Node)
      : (r: (Node, nat))
      requires K > 0 && Spells(sub, at, parent)
      reads Nodes(sub)
      ensures r.0 == At(sub, Extreme(max, dimLevel % K, sub)).node
      ensures r.1 == level + |Extreme(max, dimLevel % K, sub)|
      decreases sub
    {
      SpellsChildren(sub, at, parent);
      if at.left == null && at.right == null then (at, level)
      else
        var candidate := (at, dimLevel);
        var candidate :=
          if at.left == null then candidate
          else
            var left := GetExtreme(max, at.left, dimLevel, level + 1, sub.left, at);
            if Beats(max, dimLevel % K, left.0.value, candidate.0.value) then left else candidate;
        var candidate :=
          if at.right == null then candidate
          else
            var right := GetExtreme(max, at.right, dimLevel, level + 1, sub.right, at);
            if Beats(max, dimLevel % K, right.0.value, candidate.0.value) then right else candidate;
        if candidate.0 == at then (at, level) else candidate
    }

    // The pointer part of _M_erase: `step` (if any) drops into the place of `dead`.
    method TakeOver(dead: Node, step: Node?)
      requires dead != header && dead.parent != null && dead.parent != dead && header !in {dead.left, dead.right}
      requires dead !in {dead.left, dead.right} && dead.parent !in {dead.left, dead.right}
      requires dead.left == null || dead.left != dead.right
      requires step == null ==> dead.left == null && dead.right == null
      requires step != null ==> step !in {dead, dead.parent, dead.left, dead.right, header}
      requires dead == root <==> dead.parent == header
      modifies this`root, header, dead.parent, dead.left, dead.right, step
      ensures root == if dead == old(root) then step else old(root)
      ensures old(dead.parent) != header ==>
        LinksOf(old(dead.parent)) == WithChildLink(old(LinksOf(dead.parent)), old(dead.parent.left) != dead, step)
      ensures LinksOf(header) == EdgeAfter(old(LinksOf(header)), dead, if step != null then step else old(dead.parent))
      ensures step != null ==> LinksOf(step) == old(LinksOf(dead))
      ensures old(dead.left) != null ==> LinksOf(old(dead.left)) == old(LinksOf(dead.left)).(parent := step)
      ensures old(dead.right) != null ==> LinksOf(old(dead.right)) == old(LinksOf(dead.right)).(parent := step)
    {
      if dead == root {
        root := step;
      } else if dead.parent.left == dead {
        dead.parent.left := step;
      } else {
        dead.parent.right := step;
      }
      if dead == header.left {
        header.left := if step != null then step else dead.parent;
      }
      if dead == header.right {
        header.right := if step != null then step else dead.parent;
      }
      if step != null {
        step.parent := dead.parent;
        if dead.left != null {
          dead.left.parent := step;
        }
        if dead.right != null {
          dead.right.parent := step;
        }
        step.left := dead.left;
        step.right := dead.right;
      }
    }

    // The node at `path` gives way to `step`, which is not in the tree.
    method DropIn(dead: Node, step: Node?, ghost path: Path)
      requires Wired() && ValidPath(shape, path) && At(shape, path).Fork? && At(shape, path).node == dead
      requires step == null ==> At(shape, path).left == Nil && At(shape, path).right == Nil
      requires step != null ==> step !in repr && step != header
      modifies this, header, repr, step
      ensures Wired() && shape == ReplaceAt(old(shape), path, Stepped(At(old(shape), path), step))
      ensures count == old(count) && repr == old(repr) - {dead} + Some(step)
    {
      ghost var m := TreeWiring(shape, header);
      TakeOverFacts(shape, path, header);
      assert LinksOf(dead) == m[dead];
      TakeOver(dead, step);
      Settle(dead, step, path, m);
    }

    // The ghost side: the links now spell out the shape with `step` in the place of `dead`.
    ghost method Settle(dead: Node, step: Node?, path: Path, m: Memory)
      requires K > 0 && repr == Nodes(shape) && Proper(shape) && header !in repr && m == TreeWiring(shape, header)
      requires ValidPath(shape, path) && At(shape, path).Fork? && At(shape, path).node == dead && dead in m
      requires step == null ==> At(shape, path).left == Nil && At(shape, path).right == Nil
      requires step != null ==> step !in repr && step != header && LinksOf(step) == m[dead]
      requires m[dead].parent != null && root == if dead == Root(shape) then step else Root(shape)
      requires forall x :: x in m && x != dead ==> LinksOf(x) == Relinked(m, dead, step, header, x)
      modifies this`shape, this`repr
      ensures Wired() && shape == ReplaceAt(old(shape), path, Stepped(At(old(shape), path), step))
      ensures repr == old(repr) - {dead} + Some(step)
    {
      repr := repr - {dead} + Some(step);
      shape := TakeOverShape(shape, path, step, header);
    }

    method EraseNode(dead: Node, level: nat, ghost path: Path) returns (step: Node?)
      requires Wired() && level == |path|
      requires ValidPath(shape, path) && At(shape, path).Fork? && At(shape, path).node == dead
      modifies this, header, repr
      ensures Wired() && shape == EraseAt(K, old(shape), path)
      ensures step == Root(EraseRoot(K, At(old(shape), path), level))
      ensures count == old(count) && repr == old(repr) - {dead}
      decreases Size(At(shape, path)), 1
    {
      ghost var s := shape;
      ErasePlan(K, s, path);
      step := GetEraseReplacement(dead, level, path);
      DropIn(dead, step, path);
    }

    // Finds the replacement of `node` and takes it out of the tree; null for a leaf.
    method GetEraseReplacement(node: Node, level: nat, ghost path: Path) returns (step: Node?)
      requires Wired() && level == |path|
      requires ValidPath(shape, path) && At(shape, path).Fork? && At(shape, path).node == node
      modifies this, header, repr
      ensures Wired() && count == old(count)
      ensures shape == WithoutReplacement(K, old(shape), path)
      ensures step == Root(EraseRoot(K, At(old(shape), path), level))
      ensures repr == old(repr) - {step}
      decreases Size(At(shape, path)), 0
    {
      ghost var s := shape;
      Reach(path);
      SpellsChildren(At(s, path), node, Above(s, path, header));
      if node.left == null && node.right == null {
        return null;
      }
      var candidate := ChooseReplacement(node, level, At(s, path), Above(s, path, header));
      ErasePlan(K, s, path);
      Disconnect(candidate.0, candidate.1, ReplacementPath(K, s, path));
      step := candidate.0;
    }

    // Takes the candidate out of the tree and stores its successor in its parent once more.
    method Disconnect(candidate: Node, level: nat, ghost path: Path)
      requires Wired() && level == |path| && path != []
      requires ValidPath(shape, path) && At(shape, path).Fork? && At(shape, path).node == candidate
      modifies this, header, repr
      ensures Wired() && shape == EraseAt(K, old(shape), path)
      ensures count == old(count) && repr == old(repr) - {candidate}
      decreases Size(At(shape, path)), 2
    {
      ghost var s, m := shape, TreeWiring(shape, header);
      TakeOverFacts(s, path, header);
      assert LinksOf(candidate) == m[candidate];
      var parent := candidate.parent;
      assert LinksOf(parent) == m[parent];
      ChildLinkErased(K, s, path, header);
      if parent.left == candidate {
        var next := EraseNode(candidate, level, path);
        assert LinksOf(parent) == TreeWiring(shape, header)[parent];
        parent.left := next;
      } else {
        var next := EraseNode(candidate, level, path);
        assert LinksOf(parent) == TreeWiring(shape, header)[parent];
        parent.right := next;
      }
    }

    // The candidate and its level: smallest of the right subtree or largest of the left one.
    function ChooseReplacement(node: Node, level: nat, ghost sub: Shape, ghost parent: Node): (r: (Node, nat))
      requires K > 0 && Spells(sub, node, parent) && (node.left != null || node.right != null)
      reads Nodes(sub)
      ensures sub.left.Fork? || sub.right.Fork?
      ensures r.0 == At(Child(sub, FromRight(K, sub, level)), Replacement(K, sub, level)).node
      ensures r.1 == level + 1 + |Replacement(K, sub, level)|
    {
      SpellsChildren(sub, node, parent);
      if node.left == null then GetExtreme(false, node.right, level, level + 1, sub.right, node)
      else if node.right == null then GetExtreme(true, node.left, level, level + 1, sub.left, node)
      else if Less(level % K, node.right.value, node.left.value) then
        GetExtreme(false, node.right, level, level + 1, sub.right, node)
      else GetExtreme(true, node.left, level, level + 1, sub.left, node)
    }

    // The links lead to the subtree at `path`.
    lemma Reach(path: Path)
      requires Wired() && ValidPath(shape, path)
      ensures Spells(At(shape, path), Root(At(shape, path)), Above(shape, path, header))
      ensures Nodes(At(shape, path)) <= repr
    {
      AtNodes(shape, path);
      forall x | x in Nodes(shape) ensures LinksOf(x) == Wiring(shape, header)[x] {
        assert LinksOf(x) == TreeWiring(shape, header)[x];
      }
      SpellsAt(shape, path, root, header);
    }

    // The level of a node, counted by climbing to the header.
    method LevelOf(target: Node, ghost path: Path) returns (level: nat)
      requires Wired() && ValidPath(shape, path) && At(shape, path).Fork? && At(shape, path).node == target
      ensures level == |path|
    {
      ghost var m := TreeWiring(shape, header);
      var n := target;
      level := 0;
      TakeOverFacts(shape, path, header);
      assert LinksOf(n) == m[n];
      ghost var here := path;
      while n.parent != header
        invariant level + |here| == |path| && ValidPath(shape, here) && At(shape, here).Fork?
        invariant At(shape, here).node == n && n in m && LinksOf(n) == m[n]
        invariant m[n].parent == Above(shape, here, header) && (here == [] <==> m[n].parent == header)
        decreases |here|
      {
        AboveLast(shape, here, header);
        n := n.parent;
        level := level + 1;
        here := here[..|here| - 1];
        TakeOverFacts(shape, here, header);
        assert LinksOf(n) == m[n];
      }
    }

    // erase(iterator).
    method Erase(target: Node)
      requires Valid() && target in repr
      modifies this, header, repr
      ensures Valid() && repr == old(repr) - {target}
      ensures count == old(count) - 1
      ensures shape == EraseAt(K, old(shape), Find(old(shape), target))
    {
      ghost var path := Find(shape, target);
      EraseAtCorrect(K, shape, path);
      var level := LevelOf(target, path);
      var _ := EraseNode(target, level, path);
      count := count - 1;
    }

    // _M_erase_subtree: right subtrees by recursion, down the left links by the loop. `visits` is what is
    // done with nodes, in order: links are read, and nodes deleted.
    method EraseSubtree(at: Node?, ghost sub: Shape, ghost parent: Node) returns (ghost visits: seq<Visit>)
      requires Spells(sub, at, parent) && Nodes(sub) <= repr
      ensures Careful(visits) && Deleted(visits) == Nodes(sub) && Among(visits, Nodes(sub))
      decreases sub
    {
      hide Careful;
      hide Deleted;
      hide Among;
      NoVisits(Nodes(sub));
      visits := [];
      var n := at;
      ghost var rest := sub;
      ghost var above: Node := parent;
      while n != null
        invariant Spells(rest, n, above) && Nodes(rest) <= Nodes(sub) && Nodes(rest) !! Deleted(visits)
        invariant Deleted(visits) + Nodes(rest) == Nodes(sub)
        invariant Careful(visits) && Among(visits, Nodes(sub))
        invariant rest == sub || rest < sub
        decreases rest
      {
        SpellsChildren(rest, n, above);
        ghost var right := EraseSubtree(n.right, rest.right, n);
        VisitNode(visits, n, right, Nodes(rest.right), Nodes(sub));
        var t := n.left;
        visits := visits + ([Look(n)] + right + [Look(n), Delete(n)]);
        n, rest, above := t, rest.left, n;
      }
    }

    method Clear()
      requires Valid()
      modifies this, header
      ensures Valid() && shape == Nil && count == 0 && repr == {}
    {
      Reach([]);
      ghost var visits := EraseSubtree(root, shape, header);
      assert Deleted(visits) == repr;
      header.left, header.right := header, header;
      root, count, shape, repr := null, 0, Nil, {};
    }

    // All dimensions but that of `level`, in cyclic order, then the verdict of _M_matches_node.
    method MatchesNode(a: Item, b: Item, level: nat) returns (r: bool)
      requires K > 0
      ensures r == SamePlace(K, a, b)
    {
      if Coord(a, level % K) != Coord(b, level % K) {
        return false;
      }
      ghost var start, seen := level % K, 1;
      CyclicStep(level, K);
      var i := (level + 1) % K;
      while i != level % K
        invariant 1 <= seen <= K && i == Cyclic(start, seen, K) && SameIn(a, b, start)
        invariant forall j: nat :: j < seen ==> SameIn(a, b, Cyclic(start, j, K))
        decreases K - seen
      {
        if Less(i, a, b) || Less(i, b, a) {
          return false;
        }
        CyclicStep(i, K);
        assert (i + 1) % K == Cyclic(start, seen + 1, K);
        i := (i + 1) % K;
        seen := seen + 1;
      }
      forall d: nat | d < K ensures Coord(a, d) == Coord(b, d) {
        assert d == Cyclic(start, if d >= start then d - start else d + K - start, K);
      }
      r := true;
    }

    // _M_find (exact false: equal location) and _M_find_exact (exact true: equal value) below `at`.
    method FindBelow(exact: bool, at: Node, v: Item, level: nat, ghost sub: Shape, ghost parent: Node)
      returns (found: Node?)
      requires K > 0 && Spells(sub, at, parent) && Nodes(sub) <= repr && KdOrdered(K, sub, level)
      ensures found != null ==> found in Nodes(sub) && Sought(exact, K, found.value, v)
      ensures found == null ==> forall x :: x in Nodes(sub) ==> !Sought(exact, K, x.value, v)
      decreases sub
    {
      SpellsChildren(sub, at, parent);
      found := null;
      if !Less(level % K, at.value, v) {
        var hit := at.value == v;
        if !exact {
          hit := MatchesNode(at.value, v, level);
        }
        if hit {
          return at;
        }
        if at.left != null {
          found := FindBelow(exact, at.left, v, level + 1, sub.left, at);
        }
      }
      if at.right != null && found == null && !Less(level % K, v, at.value) {
        found := FindBelow(exact, at.right, v, level + 1, sub.right, at);
      }
    }

    // find and find_exact: null stands for end().
    method FindValue(exact: bool, v: Item) returns (found: Node?)
      requires Valid()
      ensures found != null ==> found in repr
      ensures found != null && exact ==> found.value == v
      ensures found != null && !exact ==> forall d: nat :: d < K ==> Coord(found.value, d) == Coord(v, d)
      ensures found == null && exact ==> forall x :: x in repr ==> x.value != v
      ensures found == null && !exact ==>
        forall x :: x in repr ==> exists d: nat :: d < K && Coord(x.value, d) != Coord(v, d)
    {
      if root == null {
        return null;
      }
      Reach([]);
      found := FindBelow(exact, root, v, 0, shape, header);
    }
  }

  // What find (same location) and find_exact (same value) look for.
  predicate Sought(exact: bool, K: nat, a: Item, b: Item) {
    if exact then a == b else SamePlace(K, a, b)
  }

  predicate SameIn(a: Item, b: Item, d: nat) {
    Coord(a, d) == Coord(b, d)
  }

  // The dimension `j` steps after `start`, for at most one round.
  function Cyclic(start: nat, j: nat, K: nat): nat
    requires start < K && j <= K
  {
    if start + j < K then start + j else start + j - K
  }

  lemma CyclicStep(i: nat, K: nat)
    requires K > 0
    ensures (i + 1) % K == if i % K + 1 == K then 0 else i % K + 1
    ensures i < K ==> i % K == i
  {
    var q, r := i / K, i % K;
    if r + 1 == K {
      assert (q + 1) * K == q * K + K;
      SameRemainder(K, (i + 1) / K, (i + 1) % K, q + 1, 0);
    } else {
      SameRemainder(K, (i + 1) / K, (i + 1) % K, q, r + 1);
    }
    if i < K {
      SameRemainder(K, q, r, 0, i);
    }
  }

  lemma SameRemainder(K: nat, q: nat, r: nat, q': nat, r': nat)
    requires r < K && r' < K && q * K + r == q' * K + r'
    ensures r == r'
  {
    if q < q' {
      assert q * K + K <= q' * K by {
        MulStep(q, q', K);
      }
    } else if q' < q {
      MulStep(q', q, K);
    }
  }

  lemma {:induction false} MulStep(q: nat, q': nat, K: nat)
    requires q < q'
    ensures q * K + K <= q' * K
  {
    assert (q' - 1 + 1) * K == (q' - 1) * K + K;
    if q < q' - 1 {
      MulStep(q, q' - 1, K);
    }
  }

  // The header's links after `dead` gave way to `heir`.
  function EdgeAfter(h: Links, dead: Node, heir: Node): Links {
    Links(h.parent, if h.left == dead then heir else h.left, if h.right == dead then heir else h.right)
  }

  ghost function Relinked(m: Memory, dead: Node, step: Node?, header: Node, x: Node): Links
    requires dead in m && x in m && m[dead].parent != null
  {
    var d := m[dead];
    if x == header then EdgeAfter(m[x], dead, if step != null then step else d.parent)
    else if x == d.parent then WithChildLink(m[x], m[x].left != dead, step)
    else if x == d.left || x == d.right then m[x].(parent := step)
    else m[x]
  }

  ghost function Some(n: Node?): set<Node> {
    if n == null then {} else {n}
  }

  // A subtree whose root gave way to `step`.
  ghost function Stepped(sub: Shape, step: Node?): Shape
    requires sub.Fork?
  {
    if step == null then Nil else Fork(sub.left, step, sub.right)
  }

  // How the links of a node relate to its neighbours.
  lemma TakeOverFacts(s: Shape, path: Path, header: Node)
    requires ValidPath(s, path) && At(s, path).Fork? && Proper(s) && header !in Nodes(s)
    ensures var sub, m := At(s, path), TreeWiring(s, header); var dead := sub.node;
      && dead in Nodes(s) && dead != header
      && m[dead] == Links(Above(s, path, header), Root(sub.left), Root(sub.right))
      && m[dead].parent != null && m[dead].parent in m && m[dead].parent !in Nodes(sub)
      && (m[dead].left != null ==> m[dead].left in Nodes(sub) - {dead})
      && (m[dead].right != null ==> m[dead].right in Nodes(sub) - {dead})
      && (m[dead].left == null || m[dead].left != m[dead].right)
      && Nodes(sub) <= Nodes(s)
      && (m[dead].parent == header <==> path == []) && (dead == Root(s) <==> path == [])
      && (path != [] ==> (m[m[dead].parent].left == dead <==> !path[|path| - 1]))
      && Proper(sub)
  {
    var sub := At(s, path);
    AtNodes(s, path);
    AtProper(s, path);
    WiringAt(s, path, header);
    AboveOutside(s, path, header);
    if path != [] {
      AtNodes(Child(s, path[0]), path[1..]);
      AboveLast(s, path, header);
      var front := path[..|path| - 1];
      WiringAt(s, front, header);
      AtProper(s, front);
    }
  }

  // Left and right edge after the root of a subtree gave way.
  lemma {:induction false} EdgesStepped(s: Shape, path: Path, step: Node?, header: Node)
    requires ValidPath(s, path) && At(s, path).Fork? && Proper(s) && header !in Nodes(s)
    requires step == null ==> At(s, path).left.Nil? && At(s, path).right.Nil?
    ensures var s' := ReplaceAt(s, path, Stepped(At(s, path), step));
      var dead := At(s, path).node; var heir := if step != null then step else Above(s, path, header);
      && Leftmost(s', header) == (if dead == Leftmost(s, header) then heir else Leftmost(s, header))
      && Rightmost(s', header) == (if dead == Rightmost(s, header) then heir else Rightmost(s, header))
  {
    if s.left.Fork? { ExtremesAreNodes(s.left, header); }
    if s.right.Fork? { ExtremesAreNodes(s.right, header); }
    if path != [] {
      AtNodes(Child(s, path[0]), path[1..]);
      HeaderOnlyIfEmpty(Child(s, path[0]), header, s.node);
      HeaderOnlyIfEmpty(ReplaceAt(Child(s, path[0]), path[1..], Stepped(At(s, path), step)), header, s.node);
      EdgesStepped(Child(s, path[0]), path[1..], step, s.node);
    }
  }

  lemma HeaderOnlyIfEmpty(s: Shape, h: Node, h': Node)
    ensures s.Fork? ==> Leftmost(s, h) == Leftmost(s, h') && Rightmost(s, h) == Rightmost(s, h')
  {
  }

  // What a take-over does to the shape and to the links it demands.
  lemma TakeOverShape(s: Shape, path: Path, step: Node?, header: Node) returns (s': Shape)
    requires ValidPath(s, path) && At(s, path).Fork? && Proper(s) && header !in Nodes(s)
    requires step == null ==> At(s, path).left.Nil? && At(s, path).right.Nil?
    requires step != null ==> step !in Nodes(s) && step != header
    ensures s' == ReplaceAt(s, path, Stepped(At(s, path), step)) && Proper(s')
    ensures At(s, path).node in Nodes(s)
    ensures Nodes(s') == Nodes(s) - {At(s, path).node} + Some(step)
    ensures Root(s') == if At(s, path).node == Root(s) then step else Root(s)
    ensures var dead, m, m' := At(s, path).node, TreeWiring(s, header), TreeWiring(s', header);
      && m[dead].parent != null
      && forall x :: x in m' ==>
           if x == step then m'[x] == m[dead] else x in m && x != dead && m'[x] == Relinked(m, dead, step, header, x)
  {
    hide Wiring;
    hide Relinked;
    s' := ReplaceAt(s, path, Stepped(At(s, path), step));
    TakeOverFacts(s, path, header);
    ReplaceNodes(s, path, Stepped(At(s, path), step));
    var m, m' := TreeWiring(s, header), TreeWiring(s', header);
    var dead := At(s, path).node;
    TakeOverStep(s, path, step, header);
    forall x | x in m' && x != step
      ensures x in m && x != dead && m'[x] == Relinked(m, dead, step, header, x)
    {
      TakeOverAt(s, path, step, header, x);
    }
  }

  // The newcomer inherits all three links.
  lemma TakeOverStep(s: Shape, path: Path, step: Node?, header: Node)
    requires ValidPath(s, path) && At(s, path).Fork? && Proper(s) && header !in Nodes(s)
    requires step != null ==> step !in Nodes(s) && step != header
    ensures var dead, m := At(s, path).node, TreeWiring(s, header);
      var m' := TreeWiring(ReplaceAt(s, path, Stepped(At(s, path), step)), header);
      dead in m && (step != null ==> step in m' && m'[step] == m[dead])
  {
    TakeOverFacts(s, path, header);
    if step != null {
      WiringReplace(s, path, header, Stepped(At(s, path), step));
    }
  }

  // One other node's links.
  lemma TakeOverAt(s: Shape, path: Path, step: Node?, header: Node, x: Node)
    requires ValidPath(s, path) && At(s, path).Fork? && Proper(s) && header !in Nodes(s)
    requires step == null ==> At(s, path).left.Nil? && At(s, path).right.Nil?
    requires step != null ==> step !in Nodes(s) && step != header
    requires x in TreeWiring(s, header) && x != At(s, path).node
    ensures var dead, m := At(s, path).node, TreeWiring(s, header);
      var m' := TreeWiring(ReplaceAt(s, path, Stepped(At(s, path), step)), header);
      dead in m && m[dead].parent != null && x in m' && m'[x] == Relinked(m, dead, step, header, x)
  {
    var sub := At(s, path);
    TakeOverFacts(s, path, header);
    if x == header {
      EdgesStepped(s, path, step, header);
    } else {
      WiringReplace(s, path, header, Stepped(sub, step));
      if x in Nodes(sub) {
        WiringInside(s, path, header, x);
        SteppedInside(sub, step, Above(s, path, header), x);
      }
    }
  }

  lemma {:induction false} WiringInside(s: Shape, path: Path, parent: Node, x: Node)
    requires ValidPath(s, path) && Proper(s) && x in Nodes(At(s, path))
    ensures x in Nodes(s) && Wiring(At(s, path), Above(s, path, parent))[x] == Wiring(s, parent)[x]
  {
    AtNodes(s, path);
    if path != [] {
      AtNodes(Child(s, path[0]), path[1..]);
      WiringInside(Child(s, path[0]), path[1..], s.node, x);
    }
  }

  // Below the exchanged root only its children's parent links change.
  lemma SteppedInside(sub: Shape, step: Node?, above: Node, x: Node)
    requires sub.Fork? && Proper(sub) && x in Nodes(sub) && x != sub.node
    requires step != null && step !in Nodes(sub)
    ensures x in Nodes(Stepped(sub, step))
    ensures var k := Wiring(sub, above)[x];
      Wiring(Stepped(sub, step), above)[x] ==
      if x == Root(sub.left) || x == Root(sub.right) then k.(parent := step) else k
  {
    RootParentOnly(sub.left, sub.node, step, x);
    RootParentOnly(sub.right, sub.node, step, x);
  }

  lemma RootParentOnly(s: Shape, p: Node, p': Node, x: Node)
    requires Proper(s)
    ensures x in Nodes(s) ==>
      Wiring(s, p')[x] == if x == Root(s) then Wiring(s, p)[x].(parent := p') else Wiring(s, p)[x]
  {
  }

  // Where the replacement sits in the whole tree.
  ghost function ReplacementPath(K: nat, s: Shape, path: Path): (deep: Path)
    requires K > 0 && ValidPath(s, path) && At(s, path).Fork?
    requires At(s, path).left.Fork? || At(s, path).right.Fork?
    ensures ValidPath(s, deep) && At(s, deep).Fork?
  {
    var sub := At(s, path);
    var side := FromRight(K, sub, |path|);
    var inner := [side] + Replacement(K, sub, |path|);
    assert inner[1..] == Replacement(K, sub, |path|);
    AtAppend(s, path, inner);
    path + inner
  }

  // The tree after the replacement of the node at `path` was taken out of it.
  ghost function WithoutReplacement(K: nat, s: Shape, path: Path): Shape
    requires K > 0 && ValidPath(s, path) && At(s, path).Fork?
  {
    if At(s, path).left.Nil? && At(s, path).right.Nil? then s
    else EraseAt(K, s, ReplacementPath(K, s, path))
  }

  // The replacement comes from deeper down.
  lemma ReplacementPlace(K: nat, s: Shape, path: Path)
    requires K > 0 && ValidPath(s, path) && At(s, path).Fork? && Proper(s)
    requires At(s, path).left.Fork? || At(s, path).right.Fork?
    ensures var sub, deep := At(s, path), ReplacementPath(K, s, path);
      var c, r := Child(sub, FromRight(K, sub, |path|)), Replacement(K, sub, |path|);
      && deep == path + ([FromRight(K, sub, |path|)] + r) && deep != [] && |deep| == |path| + 1 + |r|
      && At(s, deep) == At(c, r) && At(s, deep).Fork? && ValidPath(s, deep)
      && At(s, deep).node != sub.node && Size(At(s, deep)) < Size(sub)
  {
    var sub := At(s, path);
    var side, r := FromRight(K, sub, |path|), Replacement(K, sub, |path|);
    var inner := [side] + r;
    assert inner[1..] == r && ReplacementPath(K, s, path) == path + inner;
    AtAppend(s, path, inner);
    AtProper(s, path);
    AtNodes(Child(sub, side), r);
  }

  // Taking it out first, then putting it in the place of the node at `path`, is the erasure.
  lemma ReplacementMoves(K: nat, s: Shape, path: Path)
    requires K > 0 && ValidPath(s, path) && At(s, path).Fork? && Proper(s)
    requires At(s, path).left.Fork? || At(s, path).right.Fork?
    ensures var sub, s1 := At(s, path), WithoutReplacement(K, s, path);
      && ValidPath(s1, path) && At(s1, path).Fork? && At(s1, path).node == sub.node
      && EraseAt(K, s, path) == ReplaceAt(s1, path, Stepped(At(s1, path), Root(EraseRoot(K, sub, |path|))))
  {
    var sub := At(s, path);
    var side, r := FromRight(K, sub, |path|), Replacement(K, sub, |path|);
    var inner, deep := [side] + r, ReplacementPath(K, s, path);
    ReplacementPlace(K, s, path);
    assert inner[1..] == r;
    var c := Child(sub, side);
    var t := EraseRoot(K, At(c, r), |deep|);
    assert ReplaceAt(sub, inner, t) == WithChild(sub, side, ReplaceAt(c, r, t));
    ReplaceAppend(s, path, inner, t);
    ReplaceValid(s, path, ReplaceAt(sub, inner, t));
    ReplaceTwice(s, path, ReplaceAt(sub, inner, t), EraseRoot(K, sub, |path|));
  }

  // The plan of _M_erase: the replacement comes from deeper down, and after it was taken out the
  // node at `path` gives way to it.
  lemma ErasePlan(K: nat, s: Shape, path: Path)
    requires K > 0 && ValidPath(s, path) && At(s, path).Fork? && Proper(s)
    ensures var sub := At(s, path);
      var s1 := WithoutReplacement(K, s, path);
      var step := Root(EraseRoot(K, sub, |path|));
      && ValidPath(s1, path) && At(s1, path).Fork? && At(s1, path).node == sub.node
      && (step == null ==> s1 == s && sub.left.Nil? && sub.right.Nil?)
      && EraseAt(K, s, path) == ReplaceAt(s1, path, Stepped(At(s1, path), step))
      && (sub.left.Fork? || sub.right.Fork? ==>
        var deep := ReplacementPath(K, s, path);
        && step == At(s, deep).node && step != sub.node && deep != []
        && step == At(Child(sub, FromRight(K, sub, |path|)), Replacement(K, sub, |path|)).node
        && |deep| == |path| + 1 + |Replacement(K, sub, |path|)|
        && Size(At(s, deep)) < Size(sub))
      && Proper(s1) && Nodes(s1) == Nodes(s) - {step} && (step != null ==> step in Nodes(s))
      && Nodes(EraseAt(K, s, path)) == Nodes(s) - {sub.node}
  {
    var sub := At(s, path);
    EraseAtCorrect(K, s, path);
    if sub.left.Nil? && sub.right.Nil? {
      assert EraseRoot(K, sub, |path|) == Nil;
    } else {
      var deep := ReplacementPath(K, s, path);
      ReplacementPlace(K, s, path);
      ReplacementMoves(K, s, path);
      EraseAtCorrect(K, s, deep);
      AtNodes(s, deep);
    }
  }

  // After an erasure, the link above the erased node leads to its successor.
  lemma ChildLinkErased(K: nat, s: Shape, path: Path, header: Node)
    requires K > 0 && ValidPath(s, path) && At(s, path).Fork? && path != [] && Proper(s) && header !in Nodes(s)
    ensures var m', a := TreeWiring(EraseAt(K, s, path), header), Above(s, path, header);
      a in m' && (if path[|path| - 1] then m'[a].right else m'[a].left) == Root(EraseRoot(K, At(s, path), |path|))
  {
    AtNodes(s, path);
    AtProper(s, path);
    AboveOutside(s, path, header);
    EraseRootRemovesOne(K, At(s, path), |path|);
    WiringReplace(s, path, header, EraseRoot(K, At(s, path), |path|));
  }

  // The header's links when `n` is hung below `at`.
  function AtEdge(h: Links, at: Node, n: Node, side: bool): Links {
    if (if side then h.right else h.left) == at then WithChildLink(h, side, n) else h
  }

  // One step of the descent: what the links of the node show, and where the value belongs.
  lemma DescendStep(K: nat, s: Shape, path: Path, v: Item, header: Node)
    requires K > 0 && Proper(s) && header !in Nodes(s) && ValidPath(s, path) && At(s, path).Fork?
    requires InsertPath(K, s, v, 0) == path + InsertPath(K, At(s, path), v, |path|)
    ensures var sub := At(s, path); var side := !Less(|path| % K, v, sub.node.value);
      && ValidPath(s, path + [side]) && At(s, path + [side]) == Child(sub, side)
      && InsertPath(K, s, v, 0) == path + [side] + InsertPath(K, Child(sub, side), v, |path| + 1)
      && sub.node in Nodes(s) && Size(Child(sub, side)) < Size(sub)
      && TreeWiring(s, header)[sub.node].left == Root(sub.left)
      && TreeWiring(s, header)[sub.node].right == Root(sub.right)
      && (sub.node == Rightmost(s, header) ==> sub.right.Nil?)
  {
    var sub := At(s, path);
    var side := !Less(|path| % K, v, sub.node.value);
    AtAppend(s, path, [side]);
    WiringAt(s, path, header);
    RightmostHasNoRight(s, path, header);
    assert path + ([side] + InsertPath(K, Child(sub, side), v, |path| + 1))
        == path + [side] + InsertPath(K, Child(sub, side), v, |path| + 1);
  }

  // Everything a new leaf below the node at `path` changes.
  lemma LeafShape(K: nat, s: Shape, path: Path, side: bool, n: Node, header: Node) returns (s': Shape)
    requires K > 0 && Proper(s) && n !in Nodes(s) && header !in Nodes(s) && n != header
    requires ValidPath(s, path) && At(s, path).Fork? && Child(At(s, path), side).Nil?
    requires InsertPath(K, s, n.value, 0) == path + [side]
    ensures s' == InsertAt(K, s, n, 0)
    ensures Proper(s') && Nodes(s') == Nodes(s) + {n} && Root(s') == Root(s) && At(s, path).node in Nodes(s)
    ensures var a, m, m' := At(s, path).node, TreeWiring(s, header), TreeWiring(s', header);
      && m'[n] == Links(a, null, null)
      && m'[a] == WithChildLink(m[a], side, n)
      && m'[header] == AtEdge(m[header], a, n, side)
      && forall x :: x in Nodes(s) && x != a ==> m'[x] == m[x]
  {
    s' := InsertAt(K, s, n, 0);
    InsertAsReplace(K, s, n, 0);
    InsertAddsOne(K, s, n, 0);
    LeafAtEdges(s, path, side, n, header);
    LeafWiring(s, path, side, header, n);
  }

  // The links of a tree with a new leaf below the node at `path`.
  lemma LeafWiring(s: Shape, path: Path, side: bool, parent: Node, leaf: Node)
    requires Proper(s) && leaf !in Nodes(s)
    requires ValidPath(s, path) && At(s, path).Fork? && Child(At(s, path), side).Nil?
    ensures ValidPath(s, path + [side]) && At(s, path).node in Nodes(s)
    ensures var a, m := At(s, path).node, Wiring(s, parent);
      var m' := Wiring(ReplaceAt(s, path + [side], Fork(Nil, leaf, Nil)), parent);
      && m'.Keys == Nodes(s) + {leaf}
      && m'[leaf] == Links(a, null, null)
      && m'[a] == WithChildLink(m[a], side, leaf)
      && forall x :: x in Nodes(s) && x != a ==> m'[x] == m[x]
  {
    hide Size;
    hide KdOrdered;
    var whole := path + [side];
    AtAppend(s, path, [side]);
    AboveLast(s, whole, parent);
    assert whole[..|whole| - 1] == path;
    WiringReplace(s, whole, parent, Fork(Nil, leaf, Nil));
  }

  // The rightmost node has nothing on its right.
  lemma RightmostHasNoRight(s: Shape, path: Path, header: Node)
    requires ValidPath(s, path) && At(s, path).Fork? && Proper(s)
    ensures At(s, path).node == Rightmost(s, header) ==> At(s, path).right.Nil?
  {
    if path == [] {
      if s.right.Fork? {
        ExtremesAreNodes(s.right, header);
      }
    } else {
      AtNodes(Child(s, path[0]), path[1..]);
      if s.right.Fork? {
        ExtremesAreNodes(s.right, header);
      }
      if path[0] {
        RightmostHasNoRight(s.right, path[1..], header);
      }
    }
  }

  // A new leaf becomes leftmost or rightmost exactly when it hangs on that end.
  lemma LeafAtEdges(s: Shape, path: Path, side: bool, n: Node, header: Node)
    requires ValidPath(s, path) && At(s, path).Fork? && Proper(s) && Child(At(s, path), side).Nil?
    ensures ValidPath(s, path + [side])
    ensures var t := ReplaceAt(s, path + [side], Fork(Nil, n, Nil));
      && Leftmost(t, header) == (if !side && At(s, path).node == Leftmost(s, header) then n else Leftmost(s, header))
      && Rightmost(t, header) == (if side && At(s, path).node == Rightmost(s, header) then n else Rightmost(s, header))
  {
    AtAppend(s, path, [side]);
    if path == [] {
      assert path + [side] == [side];
      if s.left.Fork? { ExtremesAreNodes(s.left, header); }
      if s.right.Fork? { ExtremesAreNodes(s.right, header); }
    } else {
      var c := Child(s, path[0]);
      assert (path + [side])[1..] == path[1..] + [side];
      AtNodes(c, path[1..]);
      if s.left.Fork? { ExtremesAreNodes(s.left, header); }
      if s.right.Fork? { ExtremesAreNodes(s.right, header); }
      LeafAtEdges(c, path[1..], side, n, header);
    }
  }
}
