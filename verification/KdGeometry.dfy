/** Values of the kd-tree: a location read through an accessor, per-dimension order, squared distance. */
module KdGeometry {

  // A stored value. Two values can share a location and still differ in `tag`.
  datatype Item = Item(at: seq<int>, tag: int)

  // The accessor functor: a coordinate for every dimension.
  function Coord(v: Item, d: nat): int {
    if d < |v.at| then v.at[d] else 0
  }

  // The comparison of one level: strictly smaller in dimension d.
  predicate Less(d: nat, a: Item, b: Item) {
    Coord(a, d) < Coord(b, d)
  }

  // Equivalent locations in the first K dimensions.
  predicate SamePlace(K: nat, a: Item, b: Item) {
    forall d: nat :: d < K ==> Coord(a, d) == Coord(b, d)
  }

  function Square(x: int): nat
    ensures Square(x) == x * x
  {
    assert x * x >= 0;
    x * x
  }

  lemma SquareMonotone(x: int, y: int)
    requires 0 <= x <= y || y <= x <= 0
    ensures Square(x) <= Square(y)
  {
    if 0 <= x {
      assert x * x <= x * y <= y * y;
    } else {
      assert (-x) * (-x) <= (-x) * (-y) <= (-y) * (-y);
    }
  }

  // Squared difference in one dimension.
  function PlaneDist(d: nat, a: Item, b: Item): nat {
    Square(Coord(a, d) - Coord(b, d))
  }

  // Squared distance over the first K dimensions.
  function Dist(K: nat, a: Item, b: Item): nat {
    if K == 0 then 0 else Dist(K - 1, a, b) + PlaneDist(K - 1, a, b)
  }

  // One dimension alone never exceeds the whole distance.
  lemma {:induction false} PlaneBelowDist(K: nat, d: nat, a: Item, b: Item)
    requires d < K
    ensures PlaneDist(d, a, b) <= Dist(K, a, b)
  {
    if d < K - 1 {
      PlaneBelowDist(K - 1, d, a, b);
    }
  }

  // The accumulation loop over dimensions.
  method AccumulateDistance(K: nat, a: Item, b: Item) returns (dist: nat)
    ensures dist == Dist(K, a, b)
  {
    dist := 0;
    for i := 0 to K
      invariant dist == Dist(i, a, b)
    {
      dist := dist + PlaneDist(i, a, b);
    }
  }

  // A splitting plane farther away than `bound` hides everything behind it.
  lemma BehindPlane(K: nat, d: nat, query: Item, split: Item, other: Item)
    requires d < K
    requires if Less(d, query, split) then !Less(d, other, split) else !Less(d, split, other)
    ensures PlaneDist(d, query, split) <= Dist(K, query, other)
  {
    var p, q := Coord(query, d) - Coord(split, d), Coord(query, d) - Coord(other, d);
    SquareMonotone(p, q);
    PlaneBelowDist(K, d, query, other);
  }

  lemma DistSymmetric(K: nat, a: Item, b: Item)
    ensures Dist(K, a, b) == Dist(K, b, a)
  {
    if K > 0 {
      DistSymmetric(K - 1, a, b);
      var x := Coord(a, K - 1) - Coord(b, K - 1);
      assert x * x == (-x) * (-x);
    }
  }

  // Two laws that leave only one distance. Along an axis it is the square of the difference.
  lemma {:induction false} DistOnAxis(K: nat, d: nat, a: Item, b: Item)
    requires d < K <= |a.at| && K <= |b.at| && forall e :: 0 <= e < K && e != d ==> a.at[e] == b.at[e]
    ensures Dist(K, a, b) == (a.at[d] - b.at[d]) * (a.at[d] - b.at[d])
  {
    if d < K - 1 {
      assert a.at[K - 1] == b.at[K - 1];
      DistOnAxis(K - 1, d, a, b);
    } else {
      DistOfSame(K - 1, a, b);
    }
  }

  lemma {:induction false} DistOfSame(K: nat, a: Item, b: Item)
    requires K <= |a.at| && K <= |b.at| && forall e :: 0 <= e < K ==> a.at[e] == b.at[e]
    ensures Dist(K, a, b) == 0
  {
    if K > 0 {
      DistOfSame(K - 1, a, b);
    }
  }

  // And over a corner it adds up: the law of Pythagoras.
  lemma {:induction false} DistOverCorner(K: nat, a: Item, b: Item, c: Item)
    requires K <= |a.at| && K <= |b.at| && K <= |c.at|
    requires forall d :: 0 <= d < K ==> b.at[d] == a.at[d] || b.at[d] == c.at[d]
    ensures Dist(K, a, c) == Dist(K, a, b) + Dist(K, b, c)
  {
    if K > 0 {
      DistOverCorner(K - 1, a, b, c);
    }
  }
}
