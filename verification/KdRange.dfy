/** Range search with pruning, and the regions it compares. */
module KdRange {
  import opened KdGeometry
  import opened KdShape
  import opened KdLinks
  import opened KdTree

  // The bounds of a region as values.
  datatype Box = Box(low: seq<int>, high: seq<int>) {
    ghost predicate Has(v: Item) {
      |low| == |high| && forall d: nat :: d < |low| ==> low[d] <= Coord(v, d) <= high[d]
    }
  }

  // Boxes that are apart in one dimension share no point.
  lemma Separated(a: Box, b: Box, d: nat)
    requires |a.low| == |a.high| == |b.low| == |b.high| > d
    requires b.high[d] < a.low[d] || a.high[d] < b.low[d]
    ensures forall v :: !(a.Has(v) && b.Has(v))
  {
    forall v
      ensures !(a.Has(v) && b.Has(v))
    {
      assert a.Has(v) ==> a.low[d] <= Coord(v, d) <= a.high[d];
      assert b.Has(v) ==> b.low[d] <= Coord(v, d) <= b.high[d];
    }
  }

  class Region {
    const K: nat
    const low: array<int>
    const high: array<int>

    ghost predicate Valid()
      reads this
    {
      K > 0 && low.Length == K && high.Length == K && low != high
    }

    ghost function Bounds(): Box
      reads this, low, high
    {
      Box(low[..], high[..])
    }

    // The points within R of v in every dimension. With R == 0 this is the region of one point.
    constructor (K: nat, v: Item, R: int)
      requires K > 0
      ensures Valid() && fresh(low) && fresh(high) && this.K == K
      ensures forall x :: Bounds().Has(x) <==> forall d: nat :: d < K ==> -R <= Coord(x, d) - Coord(v, d) <= R
    {
      this.K := K;
      low, high := new int[K], new int[K];
      new;
      for i := 0 to K
        invariant forall d: nat :: d < i ==> low[d] == Coord(v, d) - R && high[d] == Coord(v, d) + R
      {
        low[i] := Coord(v, i) - R;
        high[i] := Coord(v, i) + R;
      }
    }

    // The copy made before a bound is overwritten.
    constructor Copy(that: Region)
      requires that.Valid()
      ensures Valid() && fresh(low) && fresh(high) && K == that.K && Bounds() == that.Bounds()
    {
      K := that.K;
      low, high := new int[that.K], new int[that.K];
      new;
      for i := 0 to K
        invariant low[..i] == that.low[..i] && high[..i] == that.high[..i]
        invariant forall d: nat :: d < i ==> low[d] == that.low[d] && high[d] == that.high[d]
      {
        low[i] := that.low[i];
        high[i] := that.high[i];
      }
    }

    method SetHighBound(v: Item, level: nat)
      requires Valid()
      modifies high
      ensures Bounds() == old(Bounds()).(high := old(high[..])[level % K := Coord(v, level % K)])
    {
      high[level % K] := Coord(v, level % K);
    }

    method SetLowBound(v: Item, level: nat)
      requires Valid()
      modifies low
      ensures Bounds() == old(Bounds()).(low := old(low[..])[level % K := Coord(v, level % K)])
    {
      low[level % K] := Coord(v, level % K);
    }

    method Encloses(v: Item) returns (r: bool)
      requires Valid()
      ensures r <==> Bounds().Has(v)
    {
      for i := 0 to K
        invariant forall d: nat :: d < i ==> low[d] <= Coord(v, d) <= high[d]
      {
        if Coord(v, i) < low[i] || high[i] < Coord(v, i) {
          return false;
        }
      }
      return true;
    }

    // Exactly when no dimension separates the two regions.
    method IntersectsWith(that: Region) returns (r: bool)
      requires Valid() && that.Valid() && K == that.K
      ensures r <==> forall d: nat :: d < K ==> low[d] <= that.high[d] && that.low[d] <= high[d]
      ensures !r ==> forall v :: !(Bounds().Has(v) && that.Bounds().Has(v))
    {
      for i := 0 to K
        invariant forall d: nat :: d < i ==> low[d] <= that.high[d] && that.low[d] <= high[d]
      {
        if that.high[i] < low[i] || high[i] < that.low[i] {
          Separated(Bounds(), that.Bounds(), i);
          return false;
        }
      }
      return true;
    }
  }

  // The reference: every stored value of the subtree inside the box, in the order node, left, right.
  ghost function Inside(s: Shape, box: Box): seq<Item> {
    match s
    case Nil => []
    case Fork(l, n, r) => (if box.Has(n.value) then [n.value] else []) + Inside(l, box) + Inside(r, box)
  }

  // ... which is exactly the multiset of stored values inside the box.
  lemma {:induction false} InsideIsExact(s: Shape, box: Box, v: Item)
    ensures multiset(Inside(s, box))[v] == if box.Has(v) then Values(s)[v] else 0
  {
    if s.Fork? {
      InsideIsExact(s.left, box, v);
      InsideIsExact(s.right, box, v);
      var head := if box.Has(s.node.value) then [s.node.value] else [];
      MultisetOfThree(head, Inside(s.left, box), Inside(s.right, box));
    }
  }

  lemma MultisetOfThree(a: seq<Item>, b: seq<Item>, c: seq<Item>)
    ensures multiset(a + b + c) == multiset(a) + multiset(b) + multiset(c)
  {
  }

  // `bounds` has every value of the subtree that `region` has.
  ghost predicate Covers(s: Shape, region: Box, bounds: Box) {
    forall x :: x in Nodes(s) && region.Has(x.value) ==> bounds.Has(x.value)
  }

  // Overwriting one bound with the node's coordinate loses no value of that side.
  lemma OverwriteCovers(K: nat, s: Shape, side: bool, level: nat, region: Box, bounds: Box, after: Box)
    requires K > 0 && s.Fork? && KdOrdered(K, s, level) && Covers(s, region, bounds)
    requires |bounds.low| == |bounds.high| == K
    requires after == if side then bounds.(low := bounds.low[level % K := Coord(s.node.value, level % K)])
                      else bounds.(high := bounds.high[level % K := Coord(s.node.value, level % K)])
    ensures Covers(Child(s, side), region, after)
  {
    forall x | x in Nodes(Child(s, side)) && region.Has(x.value)
      ensures after.Has(x.value)
    {
      assert bounds.Has(x.value);
    }
  }

  // A subtree whose bounds miss the region holds nothing of the region.
  lemma MissedIsEmpty(s: Shape, region: Box, bounds: Box)
    requires Covers(s, region, bounds)
    requires forall v :: !(region.Has(v) && bounds.Has(v))
    ensures Inside(s, region) == []
  {
  }

  // _M_find_within_range below `at`: appends exactly the values inside the region.
  method FindBelow(at: Node, region: Region, bounds: Region, level: nat, out: seq<Item>,
                   ghost s: Shape, ghost parent: Node, ghost ns: set<Node>, ghost box: Box)
    returns (out': seq<Item>)
    requires ns == Nodes(s) && Spells(s, at, parent) && s.Fork?
    requires region.Valid() && bounds.Valid() && region.K == bounds.K && KdOrdered(region.K, s, level)
    requires box == region.Bounds() && Covers(s, box, bounds.Bounds())
    ensures out' == out + Inside(s, box)
    decreases s, 0
  {
    SpellsChildren(s, at, parent);
    out' := out;
    var hit := region.Encloses(at.value);
    if hit {
      out' := out' + [at.value];
    }
    ghost var head := if hit then [at.value] else [];
    assert out' == out + head;
    if at.left != null {
      out' := FindSide(false, at, at.left, region, bounds, level, out', s, parent, ns, Nodes(s.left), box);
    }
    assert out' == out + head + Inside(s.left, box);
    if at.right != null {
      out' := FindSide(true, at, at.right, region, bounds, level, out', s, parent, ns, Nodes(s.right), box);
    }
    assert out' == out + head + Inside(s.left, box) + Inside(s.right, box);
    Append(out, head, Inside(s.left, box), Inside(s.right, box));
  }

  lemma Append(out: seq<Item>, a: seq<Item>, b: seq<Item>, c: seq<Item>)
    ensures out + a + b + c == out + (a + b + c)
  {
  }

  // A copy of the bounds with the bound facing the node overwritten.
  method Narrowed(bounds: Region, side: bool, v: Item, level: nat) returns (inner: Region)
    requires bounds.Valid()
    ensures inner.Valid() && inner.K == bounds.K && fresh(inner) && fresh(inner.low) && fresh(inner.high)
    ensures var b, d := bounds.Bounds(), level % bounds.K;
      inner.Bounds() == if side then b.(low := b.low[d := Coord(v, d)]) else b.(high := b.high[d := Coord(v, d)])
  {
    inner := new Region.Copy(bounds);
    if side {
      inner.SetLowBound(v, level);
    } else {
      inner.SetHighBound(v, level);
    }
  }

  // One child: its bounds are a copy with one bound overwritten; it is skipped if they miss the region.
  method FindSide(side: bool, at: Node, child: Node, region: Region, bounds: Region, level: nat, out: seq<Item>,
                  ghost s: Shape, ghost parent: Node, ghost ns: set<Node>, ghost cs: set<Node>, ghost box: Box)
    returns (out': seq<Item>)
    requires ns == Nodes(s) && Spells(s, at, parent) && s.Fork?
    requires cs == Nodes(Child(s, side)) && child == Root(Child(s, side))
    requires region.Valid() && bounds.Valid() && region.K == bounds.K && KdOrdered(region.K, s, level)
    requires box == region.Bounds() && Covers(s, box, bounds.Bounds())
    ensures out' == out + Inside(Child(s, side), box)
    decreases Child(s, side), 1
  {
    var inner := Narrowed(bounds, side, at.value, level);
    OverwriteCovers(region.K, s, side, level, box, bounds.Bounds(), inner.Bounds());
    out' := out;
    var meets := region.IntersectsWith(inner);
    if meets {
      SpellsChildren(s, at, parent);
      out' := FindBelow(child, region, inner, level + 1, out, Child(s, side), at, cs, box);
    } else {
      MissedIsEmpty(Child(s, side), box, inner.Bounds());
    }
  }

  method FindWithinRange(t: Tree, region: Region, out: seq<Item>) returns (out': seq<Item>)
    requires t.Valid() && region.Valid() && region.K == t.K
    ensures out' == out + Inside(t.shape, region.Bounds())
  {
    out' := out;
    if t.root != null {
      t.Reach([]);
      var bounds := new Region.Copy(region);
      out' := FindBelow(t.root, region, bounds, 0, out, t.shape, t.header, t.repr, region.Bounds());
    }
  }

  // ---------------------------------------------------------------- counting

  // _M_count_within_range below `at`.
  method CountBelow(at: Node, region: Region, bounds: Region, level: nat,
                    ghost s: Shape, ghost parent: Node, ghost ns: set<Node>, ghost box: Box)
    returns (count: nat)
    requires ns == Nodes(s) && Spells(s, at, parent) && s.Fork?
    requires region.Valid() && bounds.Valid() && region.K == bounds.K && KdOrdered(region.K, s, level)
    requires box == region.Bounds() && Covers(s, box, bounds.Bounds())
    ensures count == |Inside(s, box)|
    decreases s, 0
  {
    SpellsChildren(s, at, parent);
    count := 0;
    var hit := region.Encloses(at.value);
    if hit {
      count := count + 1;
    }
    if at.left != null {
      var n := CountSide(false, at, at.left, region, bounds, level, s, parent, ns, Nodes(s.left), box);
      count := count + n;
    }
    if at.right != null {
      var n := CountSide(true, at, at.right, region, bounds, level, s, parent, ns, Nodes(s.right), box);
      count := count + n;
    }
  }

  method CountSide(side: bool, at: Node, child: Node, region: Region, bounds: Region, level: nat,
                   ghost s: Shape, ghost parent: Node, ghost ns: set<Node>, ghost cs: set<Node>, ghost box: Box)
    returns (count: nat)
    requires ns == Nodes(s) && Spells(s, at, parent) && s.Fork?
    requires cs == Nodes(Child(s, side)) && child == Root(Child(s, side))
    requires region.Valid() && bounds.Valid() && region.K == bounds.K && KdOrdered(region.K, s, level)
    requires box == region.Bounds() && Covers(s, box, bounds.Bounds())
    ensures count == |Inside(Child(s, side), box)|
    decreases Child(s, side), 1
  {
    var inner := Narrowed(bounds, side, at.value, level);
    OverwriteCovers(region.K, s, side, level, box, bounds.Bounds(), inner.Bounds());
    count := 0;
    var meets := region.IntersectsWith(inner);
    if meets {
      SpellsChildren(s, at, parent);
      count := CountBelow(child, region, inner, level + 1, Child(s, side), at, cs, box);
    } else {
      MissedIsEmpty(Child(s, side), box, inner.Bounds());
    }
  }

  method CountWithinRange(t: Tree, region: Region) returns (count: nat)
    requires t.Valid() && region.Valid() && region.K == t.K
    ensures count == |Inside(t.shape, region.Bounds())|
  {
    count := 0;
    if t.root != null {
      t.Reach([]);
      var bounds := new Region.Copy(region);
      count := CountBelow(t.root, region, bounds, 0, t.shape, t.header, t.repr, region.Bounds());
    }
  }

  // ---------------------------------------------------------------- visiting

  // A visitor that was called with these values, one after the other.
  function Called<V>(visit: (V, Item) -> V, visitor: V, vs: seq<Item>): V {
    if vs == [] then visitor else visit(Called(visit, visitor, vs[..|vs| - 1]), vs[|vs| - 1])
  }

  lemma {:induction false} CalledAppend<V>(visit: (V, Item) -> V, visitor: V, vs: seq<Item>, ws: seq<Item>)
    ensures Called(visit, visitor, vs + ws) == Called(visit, Called(visit, visitor, vs), ws)
  {
    if ws == [] {
      assert vs + ws == vs;
    } else {
      assert (vs + ws)[..|vs + ws| - 1] == vs + ws[..|ws| - 1];
      CalledAppend(visit, visitor, vs, ws[..|ws| - 1]);
    }
  }

  // _M_visit_within_range below `at`.
  method VisitBelow<V>(visit: (V, Item) -> V, visitor: V, at: Node, region: Region, bounds: Region, level: nat,
                       ghost s: Shape, ghost parent: Node, ghost ns: set<Node>, ghost box: Box)
    returns (visitor': V)
    requires ns == Nodes(s) && Spells(s, at, parent) && s.Fork?
    requires region.Valid() && bounds.Valid() && region.K == bounds.K && KdOrdered(region.K, s, level)
    requires box == region.Bounds() && Covers(s, box, bounds.Bounds())
    ensures visitor' == Called(visit, visitor, Inside(s, box))
    decreases s, 0
  {
    SpellsChildren(s, at, parent);
    visitor' := visitor;
    var hit := region.Encloses(at.value);
    if hit {
      visitor' := visit(visitor', at.value);
    }
    CalledThrough(visit, visitor, s, box);
    if at.left != null {
      visitor' := VisitSide(visit, visitor', false, at, at.left, region, bounds, level, s, parent, ns, Nodes(s.left),
        box);
    }
    if at.right != null {
      visitor' := VisitSide(visit, visitor', true, at, at.right, region, bounds, level, s, parent, ns, Nodes(s.right),
        box);
    }
  }

  lemma CalledThrough<V>(visit: (V, Item) -> V, visitor: V, s: Shape, box: Box)
    requires s.Fork?
    ensures var first := if box.Has(s.node.value) then visit(visitor, s.node.value) else visitor;
      Called(visit, visitor, Inside(s, box))
      == Called(visit, Called(visit, first, Inside(s.left, box)), Inside(s.right, box))
  {
    var head := if box.Has(s.node.value) then [s.node.value] else [];
    CalledAppend(visit, visitor, head, Inside(s.left, box));
    CalledAppend(visit, visitor, head + Inside(s.left, box), Inside(s.right, box));
  }

  method VisitSide<V>(visit: (V, Item) -> V, visitor: V, side: bool, at: Node, child: Node, region: Region,
                      bounds: Region, level: nat,
                      ghost s: Shape, ghost parent: Node, ghost ns: set<Node>, ghost cs: set<Node>, ghost box: Box)
    returns (visitor': V)
    requires ns == Nodes(s) && Spells(s, at, parent) && s.Fork?
    requires cs == Nodes(Child(s, side)) && child == Root(Child(s, side))
    requires region.Valid() && bounds.Valid() && region.K == bounds.K && KdOrdered(region.K, s, level)
    requires box == region.Bounds() && Covers(s, box, bounds.Bounds())
    ensures visitor' == Called(visit, visitor, Inside(Child(s, side), box))
    decreases Child(s, side), 1
  {
    var inner := Narrowed(bounds, side, at.value, level);
    OverwriteCovers(region.K, s, side, level, box, bounds.Bounds(), inner.Bounds());
    visitor' := visitor;
    var meets := region.IntersectsWith(inner);
    if meets {
      SpellsChildren(s, at, parent);
      visitor' := VisitBelow(visit, visitor, child, region, inner, level + 1, Child(s, side), at, cs, box);
    } else {
      MissedIsEmpty(Child(s, side), box, inner.Bounds());
    }
  }

  method VisitWithinRange<V>(t: Tree, region: Region, visit: (V, Item) -> V, visitor: V) returns (visitor': V)
    requires t.Valid() && region.Valid() && region.K == t.K
    ensures visitor' == Called(visit, visitor, Inside(t.shape, region.Bounds()))
  {
    visitor' := visitor;
    if t.root != null {
      t.Reach([]);
      var bounds := new Region.Copy(region);
      visitor' := VisitBelow(visit, visitor, t.root, region, bounds, 0, t.shape, t.header, t.repr, region.Bounds());
    }
  }
}
