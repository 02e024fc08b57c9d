/** Rebuilding by medians: _M_optimise inserts root-down, and still produces a balanced tree. */
module KdOptimise {
  import opened KdGeometry
  import opened KdShape
  import opened KdErase
  import KdIterator
  import opened KdTree

  function Max(a: nat, b: nat): nat {
    if a < b then b else a
  }

  function Height(s: Shape): nat {
    match s
    case Nil => 0
    case Fork(l, _, r) => 1 + Max(Height(l), Height(r))
  }

  // floor(log2 n) + 1, and 0 for 0.
  function BitLength(n: nat): nat {
    if n == 0 then 0 else 1 + BitLength(n / 2)
  }

  // As low as a tree of n nodes can be built by halving.
  predicate Lowest(s: Shape, n: nat) {
    Height(s) == BitLength(n)
  }

  lemma BitLengthMonotone(m: nat, n: nat)
    requires m <= n
    ensures BitLength(m) <= BitLength(n)
  {
  }

  // No location coordinate occurs twice in any dimension.
  ghost predicate AllDistinct(K: nat, b: multiset<Item>) {
    && (forall x :: x in b ==> b[x] == 1)
    && (forall x, y, d: nat :: x in b && y in b && x != y && d < K ==> Coord(x, d) != Coord(y, d))
  }

  // The values on the two sides of a median differ from it in every dimension.
  lemma DistinctSides(K: nat, left: multiset<Item>, v: Item, right: multiset<Item>)
    requires AllDistinct(K, left + multiset{v} + right)
    ensures AllDistinct(K, left) && AllDistinct(K, right)
    ensures forall x, d: nat :: (x in left || x in right) && d < K ==> Coord(x, d) != Coord(v, d)
  {
    var b := left + multiset{v} + right;
    assert b[v] == 1;
    forall x | x in left ensures left[x] == 1 && x != v { assert b[x] == 1; }
    forall x | x in right ensures right[x] == 1 && x != v { assert b[x] == 1; }
  }

  // --------------------------------------------------- where later insertions go

  // Filling one empty place does not divert a value that belongs to another one.
  lemma {:induction false} RouteElsewhere(K: nat, s: Shape, hole: Path, t: Shape, v: Item, level: nat)
    requires K > 0 && ValidPath(s, hole) && At(s, hole).Nil? && InsertPath(K, s, v, level) != hole
    ensures InsertPath(K, ReplaceAt(s, hole, t), v, level) == InsertPath(K, s, v, level)
  {
    var side := !Less(level % K, v, s.node.value);
    assert InsertPath(K, s, v, level) == [side] + InsertPath(K, Child(s, side), v, level + 1);
    if hole[0] == side {
      assert hole == [side] + hole[1..];
      RouteElsewhere(K, Child(s, side), hole[1..], t, v, level + 1);
    }
  }

  // A value that belongs to the filled place goes on inside what was put there.
  lemma {:induction false} RouteInto(K: nat, s: Shape, hole: Path, t: Shape, v: Item, level: nat)
    requires K > 0 && ValidPath(s, hole) && At(s, hole).Nil? && InsertPath(K, s, v, level) == hole
    ensures InsertPath(K, ReplaceAt(s, hole, t), v, level) == hole + InsertPath(K, t, v, level + |hole|)
  {
    if s.Nil? {
      assert hole == [];
      assert hole + InsertPath(K, t, v, level) == InsertPath(K, t, v, level);
    } else {
      var side := !Less(level % K, v, s.node.value);
      assert hole == [side] + InsertPath(K, Child(s, side), v, level + 1);
      assert hole[0] == side && hole[1..] == InsertPath(K, Child(s, side), v, level + 1);
      RouteInto(K, Child(s, side), hole[1..], t, v, level + 1);
      var below := InsertPath(K, t, v, level + |hole|);
      assert level + 1 + |hole[1..]| == level + |hole| && hole == [side] + hole[1..];
      assert [side] + (hole[1..] + below) == hole + below;
    }
  }

  // All these values belong to the empty place at `hole`.
  ghost predicate Routed(K: nat, s: Shape, vs: multiset<Item>, hole: Path)
    requires K > 0
  {
    && ValidPath(s, hole) && At(s, hole).Nil?
    && forall v :: v in vs ==> InsertPath(K, s, v, 0) == hole
  }

  // After the median went to `hole`, smaller values belong to its left, larger ones to its right.
  lemma RoutedBelow(K: nat, s: Shape, left: multiset<Item>, right: multiset<Item>, hole: Path, n: Node)
    requires K > 0 && Routed(K, s, left + multiset{n.value} + right, hole)
    requires forall v :: v in left ==> Less(|hole| % K, v, n.value)
    requires forall v :: v in right ==> !Less(|hole| % K, v, n.value)
    ensures var s' := ReplaceAt(s, hole, Fork(Nil, n, Nil));
      Routed(K, s', left, hole + [false]) && Routed(K, s', right, hole + [true])
  {
    var leaf := Fork(Nil, n, Nil);
    var s' := ReplaceAt(s, hole, leaf);
    ReplaceValid(s, hole, leaf);
    AtAppend(s', hole, [false]);
    AtAppend(s', hole, [true]);
    forall v | v in left + right
      ensures InsertPath(K, s', v, 0) == hole + [!Less(|hole| % K, v, n.value)]
    {
      assert v in left + multiset{n.value} + right;
      RouteInto(K, s, hole, leaf, v, 0);
      assert InsertPath(K, leaf, v, |hole|) == [!Less(|hole| % K, v, n.value)];
    }
  }

  lemma RoutedElsewhere(K: nat, s: Shape, vs: multiset<Item>, hole: Path, other: Path, t: Shape)
    requires K > 0 && Routed(K, s, vs, hole) && ValidPath(s, other) && At(s, other).Nil?
    requires |hole| == |other| && hole != other
    ensures Routed(K, ReplaceAt(s, other, t), vs, hole)
  {
    ReplaceElsewhere(s, hole, other, t);
    forall v | v in vs
      ensures InsertPath(K, ReplaceAt(s, other, t), v, 0) == hole
    {
      RouteElsewhere(K, s, other, t, v, 0);
    }
  }

  lemma {:induction false} ReplaceElsewhere(s: Shape, hole: Path, other: Path, t: Shape)
    requires ValidPath(s, hole) && ValidPath(s, other) && |hole| == |other| && hole != other
    ensures ValidPath(ReplaceAt(s, other, t), hole) && At(ReplaceAt(s, other, t), hole) == At(s, hole)
  {
    if hole[0] == other[0] {
      assert hole == [hole[0]] + hole[1..] && other == [other[0]] + other[1..];
      ReplaceElsewhere(Child(s, hole[0]), hole[1..], other[1..], t);
    }
  }

  // Left part, median and right part, put back together.
  lemma Assembled(s: Shape, hole: Path, n: Node, l: Shape, r: Shape)
    requires ValidPath(s, hole)
    ensures var s1 := ReplaceAt(s, hole, Fork(Nil, n, Nil));
      && ValidPath(s1, hole + [false])
      && (var s2 := ReplaceAt(s1, hole + [false], l);
          ValidPath(s2, hole + [true])
          && ReplaceAt(s2, hole + [true], r) == ReplaceAt(s, hole, Fork(l, n, r)))
  {
    var leaf := Fork(Nil, n, Nil);
    var s1 := ReplaceAt(s, hole, leaf);
    ReplaceValid(s, hole, leaf);
    assert [false][1..] == [] && [true][1..] == [];
    ReplaceAppend(s1, hole, [false], l);
    ReplaceTwice(s, hole, leaf, Fork(l, n, Nil));
    assert ReplaceAt(leaf, [false], l) == Fork(l, n, Nil);
    ReplaceValid(s, hole, Fork(l, n, Nil));
    var s2 := ReplaceAt(s, hole, Fork(l, n, Nil));
    ReplaceAppend(s2, hole, [true], r);
    assert ReplaceAt(Fork(l, n, Nil), [true], r) == Fork(l, n, r);
    ReplaceTwice(s, hole, Fork(l, n, Nil), Fork(l, n, r));
  }

  // Halves whose sizes differ by at most one give a tree of the least height.
  lemma HalvesHeight(hl: nat, hr: nat, left: nat, right: nat, size: nat)
    requires size == left + 1 + right && left == size / 2 && hl == BitLength(left) && hr == BitLength(right)
    ensures 1 + Max(hl, hr) == BitLength(size)
  {
    BitLengthMonotone(right, left);
  }

  // Median, left half and right half together are one subtree in the place of the hole.
  lemma Finish(s: Shape, s1: Shape, s2: Shape, s3: Shape, n: Node, hole: Path, l: Shape, r: Shape,
               x: nat, y: nat, size: nat)
    requires ValidPath(s, hole) && s1 == ReplaceAt(s, hole, Fork(Nil, n, Nil))
    requires ValidPath(s1, hole + [false]) && s2 == ReplaceAt(s1, hole + [false], l)
    requires ValidPath(s2, hole + [true]) && s3 == ReplaceAt(s2, hole + [true], r)
    requires Lowest(l, x) && Lowest(r, y) && size == x + 1 + y && x == size / 2
    ensures s3 == ReplaceAt(s, hole, Fork(l, n, r)) && Lowest(Fork(l, n, r), size)
  {
    Assembled(s, hole, n, l, r);
    HalvesHeight(BitLength(x), BitLength(y), x, y, size);
  }

  lemma {:induction false} InsertValues(K: nat, s: Shape, n: Node, level: nat)
    requires K > 0
    ensures Values(InsertAt(K, s, n, level)) == Values(s) + multiset{n.value}
  {
    if s.Fork? {
      InsertValues(K, s.left, n, level + 1);
      InsertValues(K, s.right, n, level + 1);
    }
  }

  // ------------------------------------------------------------------ the methods

  // The contract of std::nth_element, met here by selecting the smallest remaining value in turn.
  method NthElement(a: array<Item>, lo: nat, mid: nat, hi: nat, d: nat)
    requires lo <= mid < hi <= a.Length
    modifies a
    ensures forall i :: (0 <= i < lo || hi <= i < a.Length) ==> a[i] == old(a[i])
    ensures multiset(a[lo..hi]) == old(multiset(a[lo..hi]))
    ensures forall i :: lo <= i < mid ==> !Less(d, a[mid], a[i])
    ensures forall i :: mid < i < hi ==> !Less(d, a[i], a[mid])
  {
    var k := lo;
    while k <= mid
      invariant lo <= k <= mid + 1
      invariant forall i :: (0 <= i < lo || hi <= i < a.Length) ==> a[i] == old(a[i])
      invariant multiset(a[lo..hi]) == old(multiset(a[lo..hi]))
      invariant LeastFirst(a[lo..hi], k - lo, d)
    {
      SelectNext(a, lo, k, hi, d);
      k := k + 1;
    }
    forall i | lo <= i < hi
      ensures i < mid ==> !Less(d, a[mid], a[i])
      ensures mid < i ==> !Less(d, a[i], a[mid])
    {
      assert a[i] == a[lo..hi][i - lo] && a[mid] == a[lo..hi][mid - lo];
    }
  }

  // The first n values are no larger than any value behind them.
  ghost predicate LeastFirst(b: seq<Item>, n: nat, d: nat) {
    forall i, j :: 0 <= i < n && i < j < |b| ==> !Less(d, b[j], b[i])
  }

  // Swaps the least value of a[k..hi) to position k.
  method SelectNext(a: array<Item>, lo: nat, k: nat, hi: nat, d: nat)
    requires lo <= k < hi <= a.Length && LeastFirst(a[lo..hi], k - lo, d)
    modifies a
    ensures forall i :: (0 <= i < lo || hi <= i < a.Length) ==> a[i] == old(a[i])
    ensures multiset(a[lo..hi]) == old(multiset(a[lo..hi]))
    ensures LeastFirst(a[lo..hi], k + 1 - lo, d)
  {
    var best := IndexOfLeast(a, k, hi, d);
    ghost var before, x, y := a[lo..hi], k - lo, best - lo;
    assert forall i :: x <= i < |before| ==> !Less(d, before[i], before[y]) by {
      forall i | x <= i < |before| ensures !Less(d, before[i], before[y]) {
        assert before[i] == a[lo + i] && before[y] == a[best];
      }
    }
    a[k], a[best] := a[best], a[k];
    assert a[lo..hi] == before[x := before[y]][y := before[x]];
    SwapKeeps(before, a[lo..hi], x, y);
    SwapSelects(before, a[lo..hi], x, y, d);
  }

  lemma SwapSelects(s: seq<Item>, t: seq<Item>, x: nat, y: nat, d: nat)
    requires x <= y < |s| && t == s[x := s[y]][y := s[x]] && LeastFirst(s, x, d)
    requires forall i :: x <= i < |s| ==> !Less(d, s[i], s[y])
    ensures LeastFirst(t, x + 1, d)
  {
    forall i, j | 0 <= i < x + 1 && i < j < |t| ensures !Less(d, t[j], t[i]) {
      var j' := if j == x then y else if j == y then x else j;
      assert t[j] == s[j'] && (if i < x then t[i] == s[i] else t[i] == s[y]);
    }
  }

  method IndexOfLeast(a: array<Item>, k: nat, hi: nat, d: nat) returns (best: nat)
    requires k < hi <= a.Length
    ensures k <= best < hi
    ensures forall i :: k <= i < hi ==> !Less(d, a[i], a[best])
  {
    best := k;
    for j := k + 1 to hi
      invariant k <= best < hi
      invariant forall i :: k <= i < j ==> !Less(d, a[i], a[best])
    {
      if Less(d, a[j], a[best]) {
        best := j;
      }
    }
  }

  lemma SwapKeeps(s: seq<Item>, t: seq<Item>, i: nat, j: nat)
    requires i < |s| && j < |s| && t == s[i := s[j]][j := s[i]]
    ensures multiset(t) == multiset(s)
  {
  }

  // The values of a[lo..hi).
  ghost function Bag(a: array<Item>, lo: nat, hi: nat): multiset<Item>
    requires lo <= hi <= a.Length
    reads a
  {
    multiset(a[lo..hi])
  }

  lemma BagSplit(a: array<Item>, lo: nat, m: nat, hi: nat)
    requires lo <= m < hi <= a.Length
    ensures Bag(a, lo, hi) == Bag(a, lo, m) + multiset{a[m]} + Bag(a, m + 1, hi)
  {
    assert a[lo..hi] == a[lo..m] + [a[m]] + a[m + 1..hi];
  }

  // The values left and right of a selected median, when no coordinate repeats.
  lemma SidesOfMedian(a: array<Item>, lo: nat, m: nat, hi: nat, K: nat, d: nat)
    requires lo <= m < hi <= a.Length && d < K && AllDistinct(K, Bag(a, lo, hi))
    requires forall i :: lo <= i < m ==> !Less(d, a[m], a[i])
    requires forall i :: m < i < hi ==> !Less(d, a[i], a[m])
    ensures AllDistinct(K, Bag(a, lo, m)) && AllDistinct(K, Bag(a, m + 1, hi))
    ensures forall v :: v in Bag(a, lo, m) ==> Less(d, v, a[m])
    ensures forall v :: v in Bag(a, m + 1, hi) ==> !Less(d, v, a[m])
  {
    BagSplit(a, lo, m, hi);
    DistinctSides(K, Bag(a, lo, m), a[m], Bag(a, m + 1, hi));
  }

  // These values all belong to the empty place `hole`, and no coordinate repeats.
  ghost predicate Placeable(K: nat, s: Shape, vs: multiset<Item>, hole: Path)
    requires K > 0
  {
    Routed(K, s, vs, hole) && AllDistinct(K, vs)
  }

  // Selects the median of a[lo..hi) on this level and inserts it.
  method InsertMedian(t: Tree, a: array<Item>, lo: nat, hi: nat, level: nat,
                      ghost vs: multiset<Item>, ghost hole: Path, ghost placed: bool)
    returns (m: nat, n: Node, ghost left: multiset<Item>, ghost right: multiset<Item>)
    requires t.Valid() && lo < hi <= a.Length && |hole| == level && vs == Bag(a, lo, hi)
    requires placed ==> Placeable(t.K, t.shape, vs, hole)
    modifies t, t.header, t.repr, a
    ensures m == lo + (hi - lo) / 2
    ensures t.Valid() && t.count == old(t.count) + 1 && fresh(t.repr - old(t.repr))
    ensures Values(t.shape) == old(Values(t.shape)) + multiset{n.value}
    ensures forall i :: (0 <= i < lo || hi <= i < a.Length) ==> a[i] == old(a[i])
    ensures left == Bag(a, lo, m) && right == Bag(a, m + 1, hi) && vs == left + multiset{n.value} + right
    ensures placed ==> t.shape == ReplaceAt(old(t.shape), hole, Fork(Nil, n, Nil))
    ensures placed ==> Placeable(t.K, t.shape, left, hole + [false])
    ensures placed ==> Placeable(t.K, t.shape, right, hole + [true])
  {
    m := lo + (hi - lo) / 2;
    NthElement(a, lo, m, hi, level % t.K);
    BagSplit(a, lo, m, hi);
    left, right := Bag(a, lo, m), Bag(a, m + 1, hi);
    ghost var s := t.shape;
    n := t.Insert(a[m]);
    InsertValues(t.K, s, n, 0);
    if placed {
      SidesOfMedian(a, lo, m, hi, t.K, level % t.K);
      RoutedBelow(t.K, s, left, right, hole, n);
      InsertAsReplace(t.K, s, n, 0);
      assert n.value in vs;
    }
  }

  // _M_optimise on a[lo..hi), which holds `vs`. If `placed`, the values belong to the empty place
  // `hole`, and what fills it is `sub`.
  method Optimise(t: Tree, a: array<Item>, lo: nat, hi: nat, level: nat,
                  ghost vs: multiset<Item>, ghost hole: Path, ghost placed: bool)
    returns (ghost sub: Shape)
    requires t.Valid() && lo <= hi <= a.Length && |hole| == level && vs == Bag(a, lo, hi)
    requires placed ==> Placeable(t.K, t.shape, vs, hole)
    modifies t, t.header, t.repr, a
    ensures t.Valid() && t.count == old(t.count) + hi - lo && fresh(t.repr - old(t.repr))
    ensures Values(t.shape) == old(Values(t.shape)) + vs
    ensures forall i :: (0 <= i < lo || hi <= i < a.Length) ==> a[i] == old(a[i])
    ensures placed ==> Lowest(sub, hi - lo) && t.shape == ReplaceAt(old(t.shape), hole, sub)
    decreases hi - lo, 3
  {
    sub := Nil;
    if lo != hi {
      sub := OptimiseAround(t, a, lo, hi, level, vs, hole, placed);
    } else if placed {
      ReplaceSelf(t.shape, hole);
    }
  }

  // A non-empty range: its median first, then the part on either side.
  method OptimiseAround(t: Tree, a: array<Item>, lo: nat, hi: nat, level: nat,
                        ghost vs: multiset<Item>, ghost hole: Path, ghost placed: bool)
    returns (ghost sub: Shape)
    requires t.K > 0 && t.Valid() && lo < hi <= a.Length && |hole| == level && vs == Bag(a, lo, hi)
    requires placed ==> Placeable(t.K, t.shape, vs, hole)
    modifies t, t.header, t.repr, a
    ensures t.Valid() && t.count == old(t.count) + hi - lo && fresh(t.repr - old(t.repr))
    ensures Values(t.shape) == old(Values(t.shape)) + vs
    ensures forall i :: (0 <= i < lo || hi <= i < a.Length) ==> a[i] == old(a[i])
    ensures placed ==> Lowest(sub, hi - lo) && t.shape == ReplaceAt(old(t.shape), hole, sub)
    decreases hi - lo, 2
  {
    hide Tree.Valid;
    hide Placeable;
    hide Lowest;
    hide ReplaceAt;
    hide Values;
    hide Bag;
    ghost var s := t.shape;
    var m, n, left, right := InsertMedian(t, a, lo, hi, level, vs, hole, placed);
    ghost var x, y, s1 := m - lo, hi - (m + 1), t.shape;
    ghost var repr1 := t.repr;
    ghost var l := OptimiseLeft(t, a, lo, m, hi, level, left, right, hole, placed, x);
    ghost var s2, repr2 := t.shape, t.repr;
    assert fresh(repr2 - old(t.repr)) by {
      assert repr2 - old(t.repr) <= (repr2 - repr1) + (repr1 - old(t.repr));
    }
    assert right == Bag(a, m + 1, hi);
    assert |hole + [true]| == level + 1;
    assert placed ==> Placeable(t.K, t.shape, right, hole + [true]);
    ghost var r := OptimiseHalf(t, a, m + 1, hi, level + 1, right, hole + [true], placed, y);
    assert t.repr - old(t.repr) <= (t.repr - repr2) + (repr2 - old(t.repr));
    sub := Fork(l, n, r);
    if placed {
      FinishPlaced(t.K, s, s1, s2, t.shape, vs, left, right, n, hole, l, r, x, y, hi - lo);
    }
  }

  lemma FinishPlaced(K: nat, s: Shape, s1: Shape, s2: Shape, s3: Shape,
                     vs: multiset<Item>, left: multiset<Item>, right: multiset<Item>,
                     n: Node, hole: Path, l: Shape, r: Shape, x: nat, y: nat, size: nat)
    requires K > 0 && Placeable(K, s, vs, hole) && s1 == ReplaceAt(s, hole, Fork(Nil, n, Nil))
    requires Placeable(K, s1, left, hole + [false]) && s2 == ReplaceAt(s1, hole + [false], l)
    requires Placeable(K, s2, right, hole + [true]) && s3 == ReplaceAt(s2, hole + [true], r)
    requires Lowest(l, x) && Lowest(r, y) && size == x + 1 + y && x == size / 2
    ensures s3 == ReplaceAt(s, hole, Fork(l, n, r)) && Lowest(Fork(l, n, r), size)
  {
    Finish(s, s1, s2, s3, n, hole, l, r, x, y, size);
  }

  lemma SameSlice(b: seq<Item>, c: seq<Item>, lo: nat, hi: nat)
    requires lo <= hi <= |b| == |c| && forall i :: lo <= i < hi ==> b[i] == c[i]
    ensures b[lo..hi] == c[lo..hi]
  {
  }

  // One recursive call, made only for a non-empty range.
  method OptimiseHalf(t: Tree, a: array<Item>, lo: nat, hi: nat, level: nat,
                      ghost vs: multiset<Item>, ghost hole: Path, ghost placed: bool, ghost size: nat)
    returns (ghost sub: Shape)
    requires size == hi - lo && t.Valid() && lo <= hi <= a.Length && |hole| == level && vs == Bag(a, lo, hi)
    requires placed ==> Placeable(t.K, t.shape, vs, hole)
    modifies t, t.header, t.repr, a
    ensures t.Valid() && t.count == old(t.count) + hi - lo && fresh(t.repr - old(t.repr))
    ensures Values(t.shape) == old(Values(t.shape)) + vs
    ensures forall i :: (0 <= i < lo || hi <= i < a.Length) ==> a[i] == old(a[i])
    ensures placed ==> Lowest(sub, size) && t.shape == ReplaceAt(old(t.shape), hole, sub)
    decreases hi - lo, 4
  {
    hide Tree.Valid;
    hide Values;
    hide ReplaceAt;
    sub := Nil;
    if lo != hi {
      sub := Optimise(t, a, lo, hi, level, vs, hole, placed);
    } else if placed {
      ReplaceSelf(t.shape, hole);
    }
  }

  lemma RightStillPlaceable(K: nat, s: Shape, s2: Shape, left: multiset<Item>, right: multiset<Item>,
                            hole: Path, l: Shape, placed: bool)
    requires K > 0
    requires placed ==> Placeable(K, s, left, hole + [false]) && Placeable(K, s, right, hole + [true])
    requires placed ==> s2 == ReplaceAt(s, hole + [false], l)
    ensures placed ==> Placeable(K, s2, right, hole + [true])
  {
    if placed {
      assert (hole + [true])[|hole|] != (hole + [false])[|hole|];
      RoutedElsewhere(K, s, right, hole + [true], hole + [false], l);
    }
  }

  // The first recursive call around the median at m: the right part keeps its values and its place.
  method OptimiseLeft(t: Tree, a: array<Item>, lo: nat, m: nat, hi: nat, level: nat,
                      ghost left: multiset<Item>, ghost right: multiset<Item>,
                      ghost hole: Path, ghost placed: bool, ghost size: nat)
    returns (ghost l: Shape)
    requires t.K > 0 && size == m - lo && t.Valid() && lo <= m < hi <= a.Length && |hole| == level
    requires left == Bag(a, lo, m) && right == Bag(a, m + 1, hi)
    requires placed ==> Placeable(t.K, t.shape, left, hole + [false]) && Placeable(t.K, t.shape, right, hole + [true])
    modifies t, t.header, t.repr, a
    ensures t.Valid() && t.count == old(t.count) + m - lo && fresh(t.repr - old(t.repr))
    ensures Values(t.shape) == old(Values(t.shape)) + left
    ensures forall i :: (0 <= i < lo || m <= i < a.Length) ==> a[i] == old(a[i])
    ensures Bag(a, m + 1, hi) == right
    ensures placed ==> Placeable(t.K, t.shape, right, hole + [true])
    ensures placed ==> Lowest(l, size) && t.shape == ReplaceAt(old(t.shape), hole + [false], l)
    decreases hi - lo, 1
  {
    hide Tree.Valid;
    hide Values;
    hide Placeable;
    hide ReplaceAt;
    hide Lowest;
    ghost var s, before := t.shape, a[..];
    l := OptimiseHalf(t, a, lo, m, level + 1, left, hole + [false], placed, size);
    SameSlice(before, a[..], m + 1, hi);
    RightStillPlaceable(t.K, s, t.shape, left, right, hole, l, placed);
  }

  // efficient_replace_and_optimise: afterwards the tree holds exactly the values of `a`; if no coordinate
  // repeats, it has height floor(log2 n) + 1.
  method Rebuild(t: Tree, a: array<Item>)
    requires t.Valid()
    modifies t, t.header, t.repr, a
    ensures t.Valid() && Values(t.shape) == old(multiset(a[..])) && t.count == a.Length
    ensures fresh(t.repr - old(t.repr))
    ensures old(AllDistinct(t.K, multiset(a[..]))) ==> Height(t.shape) == BitLength(a.Length)
  {
    hide Tree.Valid, AllDistinct;
    assert a[0..a.Length] == a[..];
    t.Clear();
    ghost var sub := Optimise(t, a, 0, a.Length, 0, Bag(a, 0, a.Length), [], AllDistinct(t.K, Bag(a, 0, a.Length)));
  }

  // The values of the nodes, in the order in which they are visited.
  function Stored(ns: seq<Node>): seq<Item> {
    seq(|ns|, i requires 0 <= i < |ns| => ns[i].value)
  }

  lemma StoredJoin(xs: seq<Node>, n: Node, ys: seq<Node>)
    ensures multiset(Stored(xs + [n] + ys)) == multiset(Stored(xs)) + multiset{n.value} + multiset(Stored(ys))
  {
    assert Stored(xs + [n] + ys) == Stored(xs) + [n.value] + Stored(ys);
  }

  lemma {:induction false} StoredInOrder(s: Shape)
    ensures multiset(Stored(KdIterator.InOrder(s))) == Values(s)
  {
    hide Stored;
    match s
    case Nil => NothingStored();
    case Fork(l, n, r) =>
      StoredInOrder(l);
      StoredInOrder(r);
      StoredJoin(KdIterator.InOrder(l), n, KdIterator.InOrder(r));
  }

  lemma NothingStored()
    ensures Stored([]) == []
  {
  }

  /**
   * optimise(): what the iterator collects is put back. The tree holds the values it held, in kd order; if no
   * coordinate repeats, it has height floor(log2 n) + 1.
   */
  method OptimiseTree(t: Tree)
    requires t.Valid()
    modifies t, t.header, t.repr
    ensures t.Valid() && Values(t.shape) == old(Values(t.shape)) && t.count == old(t.count)
    ensures fresh(t.repr - old(t.repr))
    ensures AllDistinct(t.K, Values(t.shape)) ==> Height(t.shape) == BitLength(t.count)
  {
    hide Tree.Valid;
    hide Values;
    hide AllDistinct;
    var visited := KdIterator.Traverse(t);
    StoredInOrder(t.shape);
    var v := new Item[|visited|](i requires 0 <= i < |visited| => visited[i].value);
    assert v[..] == Stored(visited);
    Rebuild(t, v);
  }
}
