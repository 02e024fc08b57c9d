/**
 Nearest neighbour: the stackless walk of _S_node_nearest over parent links, against a recursive
 search, and that search against the definition of a nearest node.
 Distances are squared, so the splitting plane test and the bound compare squares.
 */
module KdNearest {
  import opened KdGeometry
  import opened KdShape
  import opened KdLinks
  import opened KdTree

  // What is looked for: the nearest value to `val` among those satisfying `p`.
  datatype Query = Query(K: nat, val: Item, p: Item -> bool) {
    predicate Admits(n: Node, bound: int) {
      p(n.value) && Dist(K, val, n.value) <= bound
    }
  }

  // The best node so far, the current bound, and the level the best node is on.
  datatype Best = Best(node: Node, max: int, level: nat)

  // ------------------------------------------------------------ the recursive search

  // The side of `n` the searched value belongs to.
  predicate NearSide(q: Query, n: Node, level: nat)
    requires q.K > 0
  {
    !Less(level % q.K, q.val, n.value)
  }

  function Test(q: Query, n: Node, level: nat, b: Best): Best {
    if q.Admits(n, b.max) then Best(n, Dist(q.K, q.val, n.value), level) else b
  }

  predicate PlaneCloseEnough(q: Query, n: Node, level: nat, max: int)
    requires q.K > 0
  {
    PlaneDist(level % q.K, q.val, n.value) <= max
  }

  // Depth first, near side before far side, the far side only if the plane is within the bound.
  function Visit(q: Query, s: Shape, level: nat, b: Best): Best
    requires q.K > 0
  {
    match s
    case Nil => b
    case Fork(_, n, _) =>
      var b := Visit(q, Child(s, NearSide(q, n, level)), level + 1, Test(q, n, level, b));
      var far := Child(s, !NearSide(q, n, level));
      if far.Fork? && PlaneCloseEnough(q, n, level, b.max) then Visit(q, far, level + 1, b) else b
  }

  // What remains at the root of `s` once its near side is done.
  function FarPart(q: Query, s: Shape, level: nat, b: Best): Best
    requires q.K > 0 && s.Fork?
  {
    var far := Child(s, !NearSide(q, s.node, level));
    if far.Fork? && PlaneCloseEnough(q, s.node, level, b.max) then Visit(q, far, level + 1, b) else b
  }

  // The direct descent below the root of `s`: the nodes passed are tested on the way down.
  function Descend(q: Query, s: Shape, level: nat, b: Best): Best
    requires q.K > 0 && s.Fork?
  {
    var near := Child(s, NearSide(q, s.node, level));
    if near.Nil? then b else Descend(q, near, level + 1, Test(q, near.node, level + 1, b))
  }

  function DescentPath(q: Query, s: Shape, level: nat): (path: Path)
    requires q.K > 0 && s.Fork?
    ensures ValidPath(s, path) && At(s, path).Fork?
  {
    var side := NearSide(q, s.node, level);
    if Child(s, side).Nil? then [] else
      var path := [side] + DescentPath(q, Child(s, side), level + 1);
      assert path[1..] == DescentPath(q, Child(s, side), level + 1);
      path
  }

  // The way back: from the bottom of the descent up, each node's other side.
  function Climb(q: Query, s: Shape, level: nat, b: Best): Best
    requires q.K > 0
  {
    match s
    case Nil => b
    case Fork(_, n, _) => FarPart(q, s, level, Climb(q, Child(s, NearSide(q, n, level)), level + 1, b))
  }

  function Search(q: Query, s: Shape, level: nat, b: Best): Best
    requires q.K > 0 && s.Fork?
  {
    Climb(q, s, level, Descend(q, s, level, b))
  }

  // ------------------------------------------------ the recursive search is right

  // `b'` is the outcome of searching the nodes `ns` from `b`: unchanged if nothing among them is
  // admissible, otherwise an admissible one at the least distance.
  ghost predicate Outcome(q: Query, ns: set<Node>, b: Best, b': Best) {
    && b'.max <= b.max
    && (forall x :: x in ns && q.p(x.value) ==> !(Dist(q.K, q.val, x.value) < b'.max))
    && (if exists x :: x in ns && q.Admits(x, b.max)
        then b'.node in ns && q.p(b'.node.value) && b'.max == Dist(q.K, q.val, b'.node.value)
        else b' == b)
  }

  lemma OutcomeChain(q: Query, ns: set<Node>, ns': set<Node>, b: Best, b1: Best, b2: Best)
    requires Outcome(q, ns, b, b1) && Outcome(q, ns', b1, b2)
    ensures Outcome(q, ns + ns', b, b2)
  {
    if exists x :: x in ns + ns' && q.Admits(x, b.max) {
      var x :| x in ns + ns' && q.Admits(x, b.max);
      if !exists y :: y in ns' && q.Admits(y, b1.max) {
        assert b2 == b1;
        if x in ns {
          assert exists y :: y in ns && q.Admits(y, b.max);
        } else {
          assert !q.Admits(x, b1.max);
          assert b1 != b;
        }
      }
    } else {
      assert !exists x :: x in ns && q.Admits(x, b.max);
      assert b1 == b;
    }
  }

  lemma OutcomeSkip(q: Query, ns: set<Node>, b: Best)
    requires forall x :: x in ns && q.p(x.value) ==> Dist(q.K, q.val, x.value) > b.max
    ensures Outcome(q, ns, b, b)
  {
  }

  // The far side of a plane beyond the bound holds nothing admissible.
  lemma FarSideHidden(q: Query, s: Shape, level: nat, max: int)
    requires q.K > 0 && s.Fork? && KdOrdered(q.K, s, level) && !PlaneCloseEnough(q, s.node, level, max)
    ensures forall x :: x in Nodes(Child(s, !NearSide(q, s.node, level))) ==> Dist(q.K, q.val, x.value) > max
  {
    forall x | x in Nodes(Child(s, !NearSide(q, s.node, level)))
      ensures Dist(q.K, q.val, x.value) > max
    {
      BehindPlane(q.K, level % q.K, q.val, s.node.value, x.value);
    }
  }

  lemma {:induction false} VisitOutcome(q: Query, s: Shape, level: nat, b: Best, b': Best)
    requires q.K > 0 && KdOrdered(q.K, s, level) && b' == Visit(q, s, level, b)
    ensures Outcome(q, Nodes(s), b, b')
    decreases s, 2
  {
    if s.Fork? {
      var near, far := Child(s, NearSide(q, s.node, level)), Child(s, !NearSide(q, s.node, level));
      var b1 := Test(q, s.node, level, b);
      var b2 := Visit(q, near, level + 1, b1);
      VisitOutcome(q, near, level + 1, b1, b2);
      TestOutcome(q, s.node, level, b);
      OutcomeChain(q, {s.node}, Nodes(near), b, b1, b2);
      FarPartOutcome(q, s, level, b2);
      OutcomeChain(q, {s.node} + Nodes(near), Nodes(far), b, b2, b');
      assert Nodes(s) == {s.node} + Nodes(near) + Nodes(far);
    }
  }

  lemma TestOutcome(q: Query, n: Node, level: nat, b: Best)
    ensures Outcome(q, {n}, b, Test(q, n, level, b))
  {
    if q.Admits(n, b.max) {
      assert exists x :: x in {n} && q.Admits(x, b.max);
    }
  }

  lemma FarPartSkips(q: Query, s: Shape, level: nat, b: Best)
    requires q.K > 0 && s.Fork? && KdOrdered(q.K, s, level)
    requires var far := Child(s, !NearSide(q, s.node, level));
             !(far.Fork? && PlaneCloseEnough(q, s.node, level, b.max))
    ensures Outcome(q, Nodes(Child(s, !NearSide(q, s.node, level))), b, b)
  {
    var far := Child(s, !NearSide(q, s.node, level));
    if far.Fork? {
      FarSideHidden(q, s, level, b.max);
    }
    OutcomeSkip(q, Nodes(far), b);
  }

  lemma FarPartOutcome(q: Query, s: Shape, level: nat, b: Best)
    requires q.K > 0 && s.Fork? && KdOrdered(q.K, s, level)
    ensures Outcome(q, Nodes(Child(s, !NearSide(q, s.node, level))), b, FarPart(q, s, level, b))
    decreases s, 1
  {
    var far := Child(s, !NearSide(q, s.node, level));
    if far.Fork? && PlaneCloseEnough(q, s.node, level, b.max) {
      VisitOutcome(q, far, level + 1, b, Visit(q, far, level + 1, b));
    } else {
      FarPartSkips(q, s, level, b);
    }
  }

  lemma SearchUnfold(q: Query, s: Shape, level: nat, b: Best) returns (b2: Best)
    requires q.K > 0 && s.Fork?
    ensures Search(q, s, level, b) == FarPart(q, s, level, b2)
    ensures var near := Child(s, NearSide(q, s.node, level));
      b2 == if near.Nil? then b else Search(q, near, level + 1, Test(q, near.node, level + 1, b))
  {
    var near := Child(s, NearSide(q, s.node, level));
    var d := Descend(q, s, level, b);
    b2 := Climb(q, near, level + 1, d);
    assert Climb(q, s, level, d) == FarPart(q, s, level, b2);
  }

  // All nodes below the root of `s` are accounted for by descent and climb together.
  lemma {:induction false} SearchOutcome(q: Query, s: Shape, level: nat, b: Best, b': Best)
    requires q.K > 0 && s.Fork? && KdOrdered(q.K, s, level) && b' == Search(q, s, level, b)
    ensures Outcome(q, Nodes(s.left) + Nodes(s.right), b, b')
  {
    var side := NearSide(q, s.node, level);
    var near, far := Child(s, side), Child(s, !side);
    var b2 := SearchUnfold(q, s, level, b);
    if near.Nil? {
      OutcomeSkip(q, Nodes(near), b);
    } else {
      var b1 := Test(q, near.node, level + 1, b);
      SearchOutcome(q, near, level + 1, b1, b2);
      TestOutcome(q, near.node, level + 1, b);
      OutcomeChain(q, {near.node}, Nodes(near.left) + Nodes(near.right), b, b1, b2);
      assert Nodes(near) == {near.node} + (Nodes(near.left) + Nodes(near.right));
    }
    FarPartOutcome(q, s, level, b2);
    OutcomeChain(q, Nodes(near), Nodes(far), b, b2, b');
    assert Nodes(s.left) + Nodes(s.right) == Nodes(near) + Nodes(far);
  }

  // ------------------------------------------------------------------- the walk

  // Where a walk below a subtree stands at a node: entering it, back from its near side, back from
  // its far side, or (at the root) above the subtree for good.
  datatype Stage = Entering | NearDone | BothDone | Finished

  // The rest of the work at the node itself.
  function Local(q: Query, s: Shape, stage: Stage, level: nat, b: Best): Best
    requires q.K > 0 && s.Fork?
  {
    match stage
    case Entering => Visit(q, s, level, b)
    case NearDone => FarPart(q, s, level, b)
    case _ => b
  }

  // The rest of the work at the ancestors, from the node at `path` up to the root of `s`.
  function Pending(q: Query, s: Shape, path: Path, level: nat, b: Best): Best
    requires q.K > 0 && ValidPath(s, path)
  {
    if path == [] then b
    else
      var b := Pending(q, Child(s, path[0]), path[1..], level + 1, b);
      if path[0] == NearSide(q, s.node, level) then FarPart(q, s, level, b) else b
  }

  function Rest(q: Query, s: Shape, path: Path, stage: Stage, level: nat, b: Best): Best
    requires q.K > 0 && ValidPath(s, path) && At(s, path).Fork?
  {
    Pending(q, s, path, level, Local(q, At(s, path), stage, level + |path|, b))
  }

  lemma {:induction false} PendingStep(q: Query, s: Shape, path: Path, side: bool, level: nat, b: Best)
    requires q.K > 0 && ValidPath(s, path) && At(s, path).Fork?
    ensures ValidPath(s, path + [side]) && At(s, path + [side]) == Child(At(s, path), side)
    ensures Pending(q, s, path + [side], level, b) ==
      Pending(q, s, path, level,
        if side == NearSide(q, At(s, path).node, level + |path|) then FarPart(q, At(s, path), level + |path|, b) else b)
  {
    AtAppend(s, path, [side]);
    if path == [] {
      assert path + [side] == [side];
      assert Pending(q, Child(s, side), [], level + 1, b) == b;
    } else {
      assert (path + [side])[0] == path[0] && (path + [side])[1..] == path[1..] + [side];
      PendingStep(q, Child(s, path[0]), path[1..], side, level + 1, b);
    }
  }

  // An upper bound on the moves still to be made, for termination.
  function LocalMoves(q: Query, s: Shape, stage: Stage, level: nat): nat
    requires q.K > 0 && s.Fork?
  {
    match stage
    case Entering => 3 * Size(s)
    case NearDone => 3 * Size(Child(s, !NearSide(q, s.node, level))) + 2
    case BothDone => 1
    case Finished => 0
  }

  function PendingMoves(q: Query, s: Shape, path: Path, level: nat): nat
    requires q.K > 0 && ValidPath(s, path)
  {
    if path == [] then 0
    else
      PendingMoves(q, Child(s, path[0]), path[1..], level + 1)
      + LocalMoves(q, s, if path[0] == NearSide(q, s.node, level) then NearDone else BothDone, level)
  }

  lemma {:induction false} MovesStep(q: Query, s: Shape, path: Path, side: bool, level: nat)
    requires q.K > 0 && ValidPath(s, path) && At(s, path).Fork? && ValidPath(s, path + [side])
    ensures var stage := if side == NearSide(q, At(s, path).node, level + |path|) then NearDone else BothDone;
      PendingMoves(q, s, path + [side], level) ==
      PendingMoves(q, s, path, level) + LocalMoves(q, At(s, path), stage, level + |path|)
  {
    if path == [] {
      assert path + [side] == [side];
      assert PendingMoves(q, Child(s, side), [], level + 1) == 0;
    } else {
      assert (path + [side])[0] == path[0] && (path + [side])[1..] == path[1..] + [side];
      MovesStep(q, Child(s, path[0]), path[1..], side, level + 1);
    }
  }

  // One move of the walk: which node comes next, in which stage, with which outcome so far.
  datatype Move = Move(path: Path, stage: Stage, b: Best)

  function Next(q: Query, s: Shape, m: Move, level: nat): Move
    requires q.K > 0 && ValidPath(s, m.path) && At(s, m.path).Fork?
  {
    var t, l := At(s, m.path), level + |m.path|;
    var near, far := NearSide(q, t.node, l), !NearSide(q, t.node, l);
    var b := if m.stage == Entering then Test(q, t.node, l, m.b) else m.b;
    if m.stage == Entering && Child(t, near).Fork? then Move(m.path + [near], Entering, b)
    else if (m.stage == Entering || m.stage == NearDone) && Child(t, far).Fork? &&
      PlaneCloseEnough(q, t.node, l, b.max) then
      Move(m.path + [far], Entering, b)
    else if m.path == [] then Move([], Finished, b)
    else
      var up := m.path[..|m.path| - 1];
      Ancestors(s, m.path);
      Move(up, if m.path[|up|] == NearSide(q, At(s, up).node, level + |up|) then NearDone else BothDone, b)
  }

  lemma Ancestors(s: Shape, path: Path)
    requires ValidPath(s, path) && path != []
    ensures var up := path[..|path| - 1];
      ValidPath(s, up) && At(s, up).Fork? && path == up + [path[|up|]] && At(s, path) == Child(At(s, up), path[|up|])
  {
    var up := path[..|path| - 1];
    if |path| > 1 {
      assert up[1..] == path[1..][..|path[1..]| - 1];
      Ancestors(Child(s, path[0]), path[1..]);
    }
  }

  lemma NearNext(q: Query, s: Shape, path: Path, level: nat, b: Best)
    requires q.K > 0 && ValidPath(s, path) && At(s, path).Fork?
    ensures var t, l := At(s, path), level + |path|; var near := NearSide(q, t.node, l);
      ValidPath(s, path + [near]) && At(s, path + [near]) == Child(t, near) &&
      Pending(q, s, path + [near], level, Visit(q, Child(t, near), l + 1, Test(q, t.node, l, b)))
      == Rest(q, s, path, Entering, level, b)
  {
    var t, l := At(s, path), level + |path|;
    var b1 := Visit(q, Child(t, NearSide(q, t.node, l)), l + 1, Test(q, t.node, l, b));
    PendingStep(q, s, path, NearSide(q, t.node, l), level, b1);
    assert Visit(q, t, l, b) == FarPart(q, t, l, b1);
  }

  lemma FarNext(q: Query, s: Shape, path: Path, level: nat, b: Best)
    requires q.K > 0 && ValidPath(s, path) && At(s, path).Fork?
    ensures var t, l := At(s, path), level + |path|; var far := !NearSide(q, t.node, l);
      ValidPath(s, path + [far]) && At(s, path + [far]) == Child(t, far) &&
      (Child(t, far).Fork? && PlaneCloseEnough(q, t.node, l, b.max) ==>
        Rest(q, s, path + [far], Entering, level, b) == Rest(q, s, path, NearDone, level, b))
  {
    var t, l := At(s, path), level + |path|;
    var far := !NearSide(q, t.node, l);
    PendingStep(q, s, path, far, level, Visit(q, Child(t, far), l + 1, b));
  }

  lemma UpNext(q: Query, s: Shape, path: Path, level: nat, b: Best)
    requires q.K > 0 && ValidPath(s, path) && At(s, path).Fork? && path != []
    ensures var up := path[..|path| - 1];
      ValidPath(s, up) && At(s, up).Fork? &&
      Rest(q, s, path, BothDone, level, b) ==
      Rest(q, s, up, if path[|up|] == NearSide(q, At(s, up).node, level + |up|) then NearDone else BothDone, level, b)
  {
    var up := path[..|path| - 1];
    Ancestors(s, path);
    PendingStep(q, s, up, path[|up|], level, b);
  }

  // A move leaves the final outcome as it was.
  lemma MoveKeepsRest(q: Query, s: Shape, m: Move, level: nat, n: Move)
    requires q.K > 0 && ValidPath(s, m.path) && At(s, m.path).Fork? && !m.stage.Finished?
    requires n == Next(q, s, m, level)
    ensures ValidPath(s, n.path) && At(s, n.path).Fork?
    ensures Rest(q, s, n.path, n.stage, level, n.b) == Rest(q, s, m.path, m.stage, level, m.b)
  {
    var t, l := At(s, m.path), level + |m.path|;
    var near := NearSide(q, t.node, l);
    if m.stage == Entering && Child(t, near).Fork? {
      NearNext(q, s, m.path, level, m.b);
    } else {
      var b := if m.stage == Entering then Test(q, t.node, l, m.b) else m.b;
      if m.stage == Entering {
        NearNil(q, t, l, m.b);
      }
      if m.stage != BothDone && Child(t, !near).Fork? && PlaneCloseEnough(q, t.node, l, b.max) {
        FarNext(q, s, m.path, level, b);
      } else {
        assert Rest(q, s, m.path, m.stage, level, m.b) == Rest(q, s, m.path, BothDone, level, b);
        if m.path != [] {
          UpNext(q, s, m.path, level, b);
        }
      }
    }
  }

  lemma NearNil(q: Query, t: Shape, l: nat, b: Best)
    requires q.K > 0 && t.Fork? && Child(t, NearSide(q, t.node, l)).Nil?
    ensures Visit(q, t, l, b) == FarPart(q, t, l, Test(q, t.node, l, b))
  {
    assert Visit(q, Nil, l + 1, Test(q, t.node, l, b)) == Test(q, t.node, l, b);
  }

  function Moves(q: Query, s: Shape, path: Path, stage: Stage, level: nat): nat
    requires q.K > 0 && ValidPath(s, path) && At(s, path).Fork?
  {
    PendingMoves(q, s, path, level) + LocalMoves(q, At(s, path), stage, level + |path|)
  }

  // A move brings the end of the walk closer: into a child ...
  lemma EnterIsProgress(q: Query, s: Shape, path: Path, stage: Stage, side: bool, level: nat)
    requires q.K > 0 && ValidPath(s, path) && At(s, path).Fork?
    requires ValidPath(s, path + [side]) && At(s, path + [side]).Fork?
    requires stage == Entering || (stage == NearDone && side != NearSide(q, At(s, path).node, level + |path|))
    ensures Moves(q, s, path + [side], Entering, level) < Moves(q, s, path, stage, level)
  {
    AtAppend(s, path, [side]);
    MovesStep(q, s, path, side, level);
    var sub := At(s, path);
    assert Size(sub) == Size(Child(sub, side)) + 1 + Size(Child(sub, !side));
  }

  // ... or back to the parent.
  lemma LeaveIsProgress(q: Query, s: Shape, path: Path, stage: Stage, level: nat)
    requires q.K > 0 && ValidPath(s, path) && At(s, path).Fork? && path != [] && !stage.Finished?
    ensures var up := path[..|path| - 1];
      ValidPath(s, up) && At(s, up).Fork? &&
      Moves(q, s, up, if path[|up|] == NearSide(q, At(s, up).node, level + |up|) then NearDone else BothDone, level)
      < Moves(q, s, path, stage, level)
  {
    Ancestors(s, path);
    MovesStep(q, s, path[..|path| - 1], path[|path| - 1], level);
  }

  lemma MoveIsProgress(q: Query, s: Shape, m: Move, level: nat, n: Move)
    requires q.K > 0 && ValidPath(s, m.path) && At(s, m.path).Fork? && !m.stage.Finished?
    requires n == Next(q, s, m, level)
    ensures ValidPath(s, n.path) && At(s, n.path).Fork?
    ensures Moves(q, s, n.path, n.stage, level) < Moves(q, s, m.path, m.stage, level)
  {
    if n.stage == Entering {
      var side := n.path[|m.path|];
      assert n.path == m.path + [side];
      AtAppend(s, m.path, [side]);
      EnterIsProgress(q, s, m.path, m.stage, side, level);
    } else if m.path != [] {
      LeaveIsProgress(q, s, m.path, m.stage, level);
    }
  }

  // What the links of a node inside a wired subtree say.
  lemma NodeLinks(t: Shape, path: Path, parent: Node)
    requires ValidPath(t, path) && At(t, path).Fork? && Spells(t, Root(t), parent) && parent !in Nodes(t)
    ensures var sub := At(t, path);
      && LinksOf(sub.node) == Links(Above(t, path, parent), Root(sub.left), Root(sub.right))
      && sub.node in Nodes(t) && Above(t, path, parent) !in Nodes(sub) && Proper(sub)
  {
    AtNodes(t, path);
    SpellsAt(t, path, Root(t), parent);
    SpellsChildren(At(t, path), At(t, path).node, Above(t, path, parent));
    AboveOutside(t, path, parent);
  }

  // Where the previous node stands relative to the current one.
  ghost predicate CameFrom(q: Query, t: Shape, m: Move, level: nat, parent: Node, previous: Node?)
    requires q.K > 0 && ValidPath(t, m.path) && At(t, m.path).Fork?
  {
    var sub := At(t, m.path);
    var near := NearSide(q, sub.node, level + |m.path|);
    match m.stage
    case Entering => previous == Above(t, m.path, parent)
    case NearDone => previous != null && previous == Root(Child(sub, near))
    case BothDone => previous != null && previous == Root(Child(sub, !near))
    case Finished => true
  }

  // The body of the inner loop: tests the node if it is entered from above, then picks the next one.
  method Advance(q: Query, probe: Node, pprobe: Node, probeDim: nat, best: Best,
                 ghost t: Shape, ghost m: Move, ghost level: nat, ghost cur: Node)
    returns (next: Node, nextDim: nat, best': Best)
    requires q.K > 0 && level > 0 && Spells(t, Root(t), cur) && cur !in Nodes(t)
    requires ValidPath(t, m.path) && At(t, m.path).Fork? && !m.stage.Finished?
    requires probe == At(t, m.path).node && probeDim == level + |m.path| && best == m.b
    requires CameFrom(q, t, m, level, cur, pprobe)
    ensures var n := Next(q, t, m, level);
      && ValidPath(t, n.path) && At(t, n.path).Fork? && best' == n.b
      && next == (if n.stage == Finished then cur else At(t, n.path).node)
      && (n.stage != Finished ==> nextDim == level + |n.path| && CameFrom(q, t, n, level, cur, probe))
      && (n.stage == Finished ==> n.path == [])
  {
    OneMove(q, t, m, level, cur, pprobe, Next(q, t, m, level));
    var near, far := probe.right, probe.left;
    if Less(probeDim % q.K, q.val, probe.value) {
      near, far := probe.left, probe.right;
    }
    if pprobe == probe.parent {
      best' := Test(q, probe, probeDim, best);
      if near != null {
        return near, probeDim + 1, best';
      } else if far != null && PlaneCloseEnough(q, probe, probeDim, best'.max) {
        return far, probeDim + 1, best';
      } else {
        return probe.parent, probeDim - 1, best';
      }
    } else {
      if pprobe == near && far != null && PlaneCloseEnough(q, probe, probeDim, best.max) {
        return far, probeDim + 1, best;
      } else {
        return probe.parent, probeDim - 1, best;
      }
    }
  }

  // The inner loop: probes the subtree `t` that hangs below `cur` and comes back to `cur`.
  method Probe(q: Query, cur: Node, start: Node, dim: nat, from: Best, ghost t: Shape, ghost ns: set<Node>)
    returns (best: Best)
    requires ns == Nodes(t) && q.K > 0 && dim > 0 && Spells(t, start, cur) && t.Fork? && cur !in Nodes(t)
    ensures best == Visit(q, t, dim, from)
  {
    var probe, pprobe, probeDim := start, cur, dim;
    best := from;
    ghost var m := Move([], Entering, from);
    assert Rest(q, t, [], Entering, dim, from) == Visit(q, t, dim, from);
    while probe != cur
      invariant ValidPath(t, m.path) && At(t, m.path).Fork? && m.b == best
      invariant probe == (if m.stage.Finished? then cur else At(t, m.path).node)
      invariant !m.stage.Finished? ==> probeDim == dim + |m.path| && CameFrom(q, t, m, dim, cur, pprobe)
      invariant m.stage.Finished? ==> m.path == []
      invariant Rest(q, t, m.path, m.stage, dim, best) == Visit(q, t, dim, from)
      invariant Spells(t, start, cur)
      decreases Moves(q, t, m.path, m.stage, dim)
    {
      ghost var n := Next(q, t, m, dim);
      MoveKeepsRest(q, t, m, dim, n);
      MoveIsProgress(q, t, m, dim, n);
      var next, nextDim, best' := Advance(q, probe, pprobe, probeDim, best, t, m, dim, cur);
      probe, pprobe, probeDim, best := next, probe, nextDim, best';
      m := n;
    }
    AtNodes(t, m.path);
  }

  // Which node a move down leads to.
  lemma MoveDown(q: Query, t: Shape, m: Move, level: nat, parent: Node)
    requires q.K > 0 && ValidPath(t, m.path) && At(t, m.path).Fork? && Proper(t)
    requires Next(q, t, m, level).stage == Entering
    ensures var n := Next(q, t, m, level);
      && n.path != [] && |n.path| == |m.path| + 1 && ValidPath(t, n.path) && At(t, n.path).Fork?
      && At(t, n.path) == Child(At(t, m.path), n.path[|m.path|])
      && Above(t, n.path, parent) == At(t, m.path).node
  {
    var n := Next(q, t, m, level);
    var side := n.path[|n.path| - 1];
    assert n.path == m.path + [side] && n.path[..|n.path| - 1] == m.path;
    AtAppend(t, m.path, [side]);
    AboveLast(t, n.path, parent);
  }

  // Which node a move up leads to.
  lemma MoveUp(q: Query, t: Shape, m: Move, level: nat, parent: Node)
    requires q.K > 0 && ValidPath(t, m.path) && At(t, m.path).Fork? && Proper(t)
    requires Next(q, t, m, level).stage != Entering && m.path != []
    ensures var n := Next(q, t, m, level);
      && |n.path| == |m.path| - 1 && ValidPath(t, n.path) && At(t, n.path).Fork?
      && At(t, n.path).node == Above(t, m.path, parent)
      && CameFrom(q, t, n, level, parent, At(t, m.path).node)
  {
    Ancestors(t, m.path);
    AboveLast(t, m.path, parent);
  }

  // Which node a move leads to.
  lemma NextPlace(q: Query, t: Shape, m: Move, level: nat, parent: Node)
    requires q.K > 0 && ValidPath(t, m.path) && At(t, m.path).Fork? && Proper(t)
    ensures var n := Next(q, t, m, level);
      ValidPath(t, n.path) && At(t, n.path).Fork? &&
      match n.stage {
        case Entering =>
          var side := n.path[|n.path| - 1];
          |n.path| == |m.path| + 1 && At(t, n.path) == Child(At(t, m.path), side)
          && Above(t, n.path, parent) == At(t, m.path).node
        case Finished => Above(t, m.path, parent) == parent
        case _ =>
          |n.path| == |m.path| - 1 && m.path != [] && At(t, n.path).node == Above(t, m.path, parent)
          && CameFrom(q, t, n, level, parent, At(t, m.path).node)
      }
  {
    var n := Next(q, t, m, level);
    if n.stage == Entering {
      MoveDown(q, t, m, level, parent);
    } else if m.path != [] {
      MoveUp(q, t, m, level, parent);
    }
  }

  // Everything the loop needs to know about one move.
  lemma OneMove(q: Query, t: Shape, m: Move, level: nat, parent: Node, previous: Node?, n: Move)
    requires q.K > 0 && ValidPath(t, m.path) && At(t, m.path).Fork? && !m.stage.Finished?
    requires Spells(t, Root(t), parent) && parent !in Nodes(t) && n == Next(q, t, m, level)
    requires CameFrom(q, t, m, level, parent, previous)
    ensures ValidPath(t, n.path) && At(t, n.path).Fork?
    ensures var sub, l := At(t, m.path), level + |m.path|;
      var near, far := Child(sub, NearSide(q, sub.node, l)), Child(sub, !NearSide(q, sub.node, l));
      && sub.node.left == Root(sub.left) && sub.node.right == Root(sub.right) && sub.node.parent != null
      && (previous == sub.node.parent <==> m.stage == Entering)
      && (m.stage != Entering ==> (previous == Root(near) <==> m.stage == NearDone))
      && n.b == (if m.stage == Entering then Test(q, sub.node, l, m.b) else m.b)
      && (n.stage == Entering <==> (
            (m.stage == Entering && near.Fork?)
            || (m.stage != BothDone && far.Fork? && PlaneCloseEnough(q, sub.node, l, n.b.max))))
      && (n.stage == Entering ==>
            |n.path| == |m.path| + 1 && CameFrom(q, t, n, level, parent, sub.node)
            && At(t, n.path) == if m.stage == Entering && near.Fork? then near else far)
      && (n.stage == Finished <==> n.stage != Entering && m.path == [])
      && (n.stage == Finished ==> sub.node.parent == parent && n.path == [])
      && (n.stage != Entering && n.stage != Finished ==>
            |n.path| == |m.path| - 1 && At(t, n.path).node == sub.node.parent
            && CameFrom(q, t, n, level, parent, sub.node))
  {
    NodeLinks(t, m.path, parent);
    NextPlace(q, t, m, level, parent);
    assert previous != null ==> (m.stage != Entering ==> previous in Nodes(At(t, m.path)));
  }

  // -------------------------------------------------------------- the whole search

  // The sides taken by the direct descent.
  lemma {:induction false} DescentSides(q: Query, s: Shape, level: nat, i: nat)
    requires q.K > 0 && s.Fork? && i <= |DescentPath(q, s, level)|
    ensures var d := DescentPath(q, s, level);
      && ValidPath(s, d[..i]) && At(s, d[..i]).Fork?
      && (i < |d| ==> d[i] == NearSide(q, At(s, d[..i]).node, level + i) && Child(At(s, d[..i]), d[i]).Fork?)
      && (i == |d| ==> Child(At(s, d[..i]), NearSide(q, At(s, d[..i]).node, level + i)).Nil?)
  {
    var d := DescentPath(q, s, level);
    if i > 0 {
      var side := NearSide(q, s.node, level);
      assert d == [side] + DescentPath(q, Child(s, side), level + 1);
      assert d[..i][1..] == DescentPath(q, Child(s, side), level + 1)[..i - 1];
      DescentSides(q, Child(s, side), level + 1, i - 1);
    }
  }

  // The node `i` steps down the descent and the one after it.
  lemma DescentStep(q: Query, s: Shape, level: nat, i: nat, end: Node)
    requires q.K > 0 && s.Fork? && i <= |DescentPath(q, s, level)| && Spells(s, Root(s), end) && end !in Nodes(s)
    ensures var d := DescentPath(q, s, level);
      && ValidPath(s, d[..i]) && At(s, d[..i]).Fork?
      && (var t := At(s, d[..i]);
          var near := NearSide(q, t.node, level + i);
          && (if near then t.node.right else t.node.left) == Root(Child(t, near))
          && (Child(t, near).Fork? <==> i < |d|)
          && (i < |d| ==> ValidPath(s, d[..i + 1]) && At(s, d[..i + 1]) == Child(t, near)))
  {
    DescentSides(q, s, level, i);
    var d := DescentPath(q, s, level);
    NodeLinks(s, d[..i], end);
    if i < |d| {
      assert d[..i + 1] == d[..i] + [d[i]];
      AtAppend(s, d[..i], [d[i]]);
    }
  }

  // The first loop: straight down to the end of the descent.
  method DescendLoop(q: Query, dim: nat, start: Node, from: Best, ghost s: Shape, ghost end: Node, ghost ns: set<Node>)
    returns (bottom: Node, bottomDim: nat, best: Best)
    requires ns == Nodes(s) && q.K > 0 && Spells(s, start, end) && end !in Nodes(s) && s.Fork?
    ensures var d := DescentPath(q, s, dim);
      bottom == At(s, d).node && bottomDim == dim + |d| && best == Descend(q, s, dim, from)
  {
    ghost var d := DescentPath(q, s, dim);
    var pcur := start;
    best := from;
    DescentStep(q, s, dim, 0, end);
    assert d[..0] == [];
    var cur := if Less(dim % q.K, q.val, start.value) then start.left else start.right;
    var curDim := dim + 1;
    ghost var t, i := s, 0;
    while cur != null
      invariant i <= |d| && ValidPath(s, d[..i]) && t == At(s, d[..i]) && t.Fork?
      invariant pcur == t.node && curDim == dim + i + 1
      invariant cur == Root(Child(t, NearSide(q, pcur, dim + i))) && (cur == null <==> i == |d|)
      invariant Descend(q, t, dim + i, best) == Descend(q, s, dim, from)
      decreases |d| - i
    {
      DescentStep(q, s, dim, i, end);
      best := Test(q, cur, curDim, best);
      pcur := cur;
      t, i := At(s, d[..i + 1]), i + 1;
      DescentStep(q, s, dim, i, end);
      cur := if Less(curDim % q.K, q.val, pcur.value) then pcur.left else pcur.right;
      curDim := curDim + 1;
    }
    assert d[..i] == d;
    bottom, bottomDim := pcur, curDim - 1;
  }

  // The other child of `cur`, if there is one and the splitting plane is close enough, is probed.
  method ProbeOther(q: Query, cur: Node, dim: nat, other: Node?, from: Best,
                    ghost s: Shape, ghost here: Path, ghost end: Node, ghost ns: set<Node>)
    returns (best: Best)
    requires ns == Nodes(s) && q.K > 0 && Spells(s, Root(s), end) && end !in Nodes(s)
    requires ValidPath(s, here) && At(s, here).Fork? && At(s, here).node == cur
    requires other == Root(Child(At(s, here), !NearSide(q, cur, dim)))
    ensures best == FarPart(q, At(s, here), dim, from)
  {
    best := from;
    if other != null && PlaneCloseEnough(q, cur, dim, best.max) {
      ghost var side := !NearSide(q, cur, dim);
      AtNodes(s, here);
      AtProper(s, here);
      SpellsAt(s, here, Root(s), end);
      SpellsChildren(At(s, here), cur, Above(s, here, end));
      best := Probe(q, cur, other, dim + 1, from, Child(At(s, here), side), Nodes(Child(At(s, here), side)));
    }
  }

  // Going up one step of the descent.
  lemma ClimbStep(q: Query, s: Shape, level: nat, i: nat, end: Node, b: Best)
    requires q.K > 0 && s.Fork? && 0 < i <= |DescentPath(q, s, level)| && Spells(s, Root(s), end) && end !in Nodes(s)
    ensures var d := DescentPath(q, s, level);
      && ValidPath(s, d[..i]) && At(s, d[..i]).Fork? && ValidPath(s, d[..i - 1]) && At(s, d[..i - 1]).Fork?
      && (var t, up := At(s, d[..i]), At(s, d[..i - 1]);
          var other := if t.node == up.node.left then up.node.right else up.node.left;
          && t.node.parent == up.node && up.node != end
          && other == Root(Child(up, !NearSide(q, up.node, level + i - 1)))
          && Climb(q, up, level + i - 1, b) == FarPart(q, up, level + i - 1, Climb(q, t, level + i, b)))
  {
    var d := DescentPath(q, s, level);
    DescentSides(q, s, level, i);
    NodeLinks(s, d[..i], end);
    DescentSides(q, s, level, i - 1);
    assert d[..i][..i - 1] == d[..i - 1];
    AboveLast(s, d[..i], end);
    NodeLinks(s, d[..i - 1], end);
    assert At(s, d[..i]) == Child(At(s, d[..i - 1]), d[i - 1]);
  }

  // The body of the outer loop: one node up, and its other side.
  method ClimbOnce(q: Query, cur: Node, curDim: nat, best: Best, ghost s: Shape, ghost level: nat, ghost i: nat,
                   ghost bottom: Best, ghost end: Node, ghost ns: set<Node>)
    returns (up: Node, upDim: nat, best': Best)
    requires ns == Nodes(s) && q.K > 0 && s.Fork? && Spells(s, Root(s), end) && end !in Nodes(s)
    requires 0 < i <= |DescentPath(q, s, level)| && curDim == level + i
    requires ValidPath(s, DescentPath(q, s, level)[..i]) && At(s, DescentPath(q, s, level)[..i]).Fork?
    requires cur == At(s, DescentPath(q, s, level)[..i]).node
    requires best == Climb(q, At(s, DescentPath(q, s, level)[..i]), curDim, bottom)
    ensures var here := DescentPath(q, s, level)[..i - 1];
      && ValidPath(s, here) && At(s, here).Fork? && up == At(s, here).node && upDim == level + i - 1
      && best' == Climb(q, At(s, here), upDim, bottom)
  {
    ClimbStep(q, s, level, i, end, bottom);
    up := cur.parent;
    upDim := curDim - 1;
    var other := if cur == up.left then up.right else up.left;
    best' := ProbeOther(q, up, upDim, other, best, s, DescentPath(q, s, level)[..i - 1], end, ns);
  }

  // _S_node_nearest: down, then back up to `end`, probing the other side of every node passed.
  method NodeNearest(q: Query, dim: nat, start: Node, end: Node, from: Best, ghost s: Shape, ghost ns: set<Node>)
    returns (best: Best)
    requires ns == Nodes(s) && q.K > 0 && Spells(s, start, end) && end !in Nodes(s) && s.Fork?
    ensures best == Search(q, s, dim, from)
  {
    var cur, curDim;
    cur, curDim, best := DescendLoop(q, dim, start, from, s, end, ns);
    ghost var bottom, d := best, DescentPath(q, s, dim);
    ghost var i := |d|;
    DescentSides(q, s, dim, i);
    assert d[..i] == d;
    NodeLinks(s, d, end);
    var other := if Less(curDim % q.K, q.val, cur.value) then cur.right else cur.left;
    best := ProbeOther(q, cur, curDim, other, best, s, d[..i], end, ns);
    assert best == Climb(q, At(s, d[..i]), curDim, bottom);
    while cur.parent != end
      invariant i <= |d| && ValidPath(s, d[..i]) && At(s, d[..i]).Fork?
      invariant cur == At(s, d[..i]).node && curDim == dim + i && Spells(s, start, end)
      invariant cur.parent == Above(s, d[..i], end) && (cur.parent == end <==> i == 0)
      invariant best == Climb(q, At(s, d[..i]), curDim, bottom)
      decreases i
    {
      cur, curDim, best := ClimbOnce(q, cur, curDim, best, s, dim, i, bottom, end, ns);
      i := i - 1;
      NodeLinks(s, d[..i], end);
    }
    assert d[..0] == [];
  }

  // -------------------------------------------------------------- find_nearest

  // `found` is a nearest value of the tree within `bound`; null only if there is none.
  ghost predicate Nearest(K: nat, val: Item, bound: int, ns: set<Node>, found: Node?, dist: int) {
    if found == null then forall x :: x in ns ==> Dist(K, val, x.value) > bound
    else found in ns && dist == Dist(K, val, found.value) <= bound
         && forall x :: x in ns ==> dist <= Dist(K, val, x.value)
  }

  // find_nearest(val): starts from the root and its own distance.
  method FindNearest(t: Tree, val: Item) returns (found: Node?, dist: int)
    requires t.Valid()
    ensures found == null <==> t.shape == Nil
    ensures found != null ==> Nearest(t.K, val, dist, t.repr, found, dist)
  {
    if t.root == null {
      return null, 0;
    }
    var q := Query(t.K, val, _ => true);
    var rootDist := AccumulateDistance(t.K, t.root.value, val);
    DistSymmetric(t.K, t.root.value, val);
    t.Reach([]);
    var from := Best(t.root, rootDist, 0);
    var best := NodeNearest(q, 0, t.root, t.header, from, t.shape, t.repr);
    SearchOutcome(q, t.shape, 0, from, best);
    WholeTree(q, t.shape, from, best, true);
    found, dist := best.node, best.max;
  }

  // find_nearest(val, max): the root only counts if it is within the bound itself.
  method FindNearestWithin(t: Tree, val: Item, max: int) returns (found: Node?, dist: int)
    requires t.Valid()
    ensures Nearest(t.K, val, max, t.repr, found, dist)
    ensures found == null ==> dist == max
  {
    if t.root != null {
      var q := Query(t.K, val, _ => true);
      var rootIsCandidate, bound := false, max;
      var rootDist := AccumulateDistance(t.K, t.root.value, val);
      DistSymmetric(t.K, t.root.value, val);
      if rootDist <= max {
        rootIsCandidate, bound := true, rootDist;
      }
      t.Reach([]);
      var from := Best(t.root, bound, 0);
      var best := NodeNearest(q, 0, t.root, t.header, from, t.shape, t.repr);
      SearchOutcome(q, t.shape, 0, from, best);
      WholeTree(q, t.shape, from, best, rootIsCandidate);
      if rootIsCandidate || best.node != t.root {
        return best.node, best.max;
      }
    }
    return null, max;
  }

  // The root and everything below it together.
  lemma WholeTree(q: Query, s: Shape, from: Best, best: Best, rootIn: bool)
    requires s.Fork? && Proper(s) && from.node == s.node && q.p == (_ => true)
    requires Outcome(q, Nodes(s.left) + Nodes(s.right), from, best)
    requires if rootIn then from.max == Dist(q.K, q.val, s.node.value)
             else from.max < Dist(q.K, q.val, s.node.value)
    ensures rootIn || best.node != s.node ==>
      best.node in Nodes(s) && best.max == Dist(q.K, q.val, best.node.value) <= from.max
    ensures forall x :: x in Nodes(s) ==> Dist(q.K, q.val, x.value) >= best.max
    ensures !rootIn && best.node == s.node ==> forall x :: x in Nodes(s) ==> Dist(q.K, q.val, x.value) > from.max
  {
    var ns := Nodes(s.left) + Nodes(s.right);
    assert forall x :: x in ns ==> q.p(x.value);
    if !exists x :: x in ns && q.Admits(x, from.max) {
      assert best == from;
      assert forall x :: x in ns ==> !q.Admits(x, from.max);
    }
  }

  // ------------------------------------------------------------ find_nearest_if

  // What find_nearest_if promises: a nearest value satisfying the predicate, within the bound.
  ghost predicate NearestIf(q: Query, bound: int, ns: set<Node>, found: Node?, dist: int) {
    if found == null then dist == bound && forall x :: x in ns ==> !q.Admits(x, bound)
    else found in ns && q.p(found.value) && dist == Dist(q.K, q.val, found.value) <= bound
         && forall x :: x in ns && q.p(x.value) ==> dist <= Dist(q.K, q.val, x.value)
  }

  // What it computes: an admissible root keeps its seat but does not narrow the bound.
  function NearestIfAnswer(q: Query, s: Shape, max: int): (Node?, int)
    requires q.K > 0
  {
    if s.Nil? then (null, max)
    else
      var best := Search(q, s, 0, Best(s.node, max, 0));
      if q.Admits(s.node, max) || best.node != s.node then (best.node, best.max) else (null, max)
  }

  method FindNearestIf(t: Tree, val: Item, max: int, p: Item -> bool) returns (found: Node?, dist: int)
    requires t.Valid()
    ensures (found, dist) == NearestIfAnswer(Query(t.K, val, p), t.shape, max)
  {
    if t.root != null {
      var q := Query(t.K, val, p);
      var rootIsCandidate := false;
      if p(t.root.value) {
        var rootDist := AccumulateDistance(t.K, t.root.value, val);
        DistSymmetric(t.K, t.root.value, val);
        if rootDist <= max {
          rootIsCandidate := true;
        }
      }
      t.Reach([]);
      var best := NodeNearest(q, 0, t.root, t.header, Best(t.root, max, 0), t.shape, t.repr);
      if rootIsCandidate || best.node != t.root {
        return best.node, best.max;
      }
    }
    return null, max;
  }

  // The answer is right if and only if the root is not admissible, or lies exactly on the bound, or
  // some other admissible value is at least as near as the root.
  lemma NearestIfExactly(q: Query, s: Shape, max: int)
    requires q.K > 0 && Proper(s) && KdOrdered(q.K, s, 0)
    ensures var (found, dist) := NearestIfAnswer(q, s, max);
      NearestIf(q, max, Nodes(s), found, dist) <==>
      (s.Nil? || !q.Admits(s.node, max) || Dist(q.K, q.val, s.node.value) == max
       || exists x :: x in Nodes(s) && x != s.node && q.Admits(x, Dist(q.K, q.val, s.node.value)))
  {
    if s.Fork? {
      var from := Best(s.node, max, 0);
      var best := Search(q, s, 0, from);
      SearchOutcome(q, s, 0, from, best);
      var ns := Nodes(s.left) + Nodes(s.right);
      assert Nodes(s) == ns + {s.node};
      if exists x :: x in ns && q.Admits(x, max) {
        assert best.node in ns;
      } else {
        assert best == from;
        assert forall x :: x in ns ==> !q.Admits(x, max);
      }
    }
  }

  // A query at the root's own place, with one more value to the right: the farther one is returned.
  lemma NearestIfFails(root: Node, other: Node)
    requires root != other && root.value == Item([0], 0) && other.value == Item([5], 1)
    ensures var s, q := Fork(Nil, root, Fork(Nil, other, Nil)), Query(1, Item([0], 0), _ => true);
      KdOrdered(1, s, 0) && NearestIfAnswer(q, s, 100) == (other, 25) && !NearestIf(q, 100, Nodes(s), other, 25)
  {
    var leaf := Fork(Nil, other, Nil);
    var s, q := Fork(Nil, root, leaf), Query(1, Item([0], 0), _ => true);
    assert Dist(1, q.val, root.value) == Dist(0, q.val, root.value) + PlaneDist(0, q.val, root.value) == 0;
    assert Dist(1, q.val, other.value) == Dist(0, q.val, other.value) + PlaneDist(0, q.val, other.value) == 25;
    var from, b1 := Best(root, 100, 0), Best(other, 25, 1);
    assert Descend(q, leaf, 1, b1) == b1;
    assert Descend(q, s, 0, from) == b1;
    assert Climb(q, leaf, 1, b1) == b1;
    assert Climb(q, s, 0, b1) == b1;
    assert root in Nodes(s);
  }
}
