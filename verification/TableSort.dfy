/** table.sort: a quicksort in place that recurses into the smaller part and loops on the larger. */
module TableSort {
  import opened Powers

  // ------------------------------------------------------------------- the order

  ghost predicate StrictWeak<T(!new)>(lt: (T, T) -> bool) {
    && (forall x :: !lt(x, x))
    && (forall x, y, z :: lt(x, y) && lt(y, z) ==> lt(x, z))
    && (forall x, y, z :: lt(x, z) ==> lt(x, y) || lt(y, z))
  }

  // A comparison function, which need not give the same answer when it is asked again.
  class Order<T> {
    const answer: (nat, T, T) -> bool
    var asked: nat

    constructor (answer: (nat, T, T) -> bool)
      ensures this.answer == answer && asked == 0
    {
      this.answer, asked := answer, 0;
    }

    // sort_comp.
    method Less(x: T, y: T) returns (r: bool)
      modifies this
      ensures r == answer(old(asked), x, y) && asked == old(asked) + 1
    {
      r := answer(asked, x, y);
      asked := asked + 1;
    }
  }

  // It always answers as this strict weak order does.
  ghost predicate Steady<T(!new)>(order: Order<T>, lt: (T, T) -> bool) {
    StrictWeak(lt) && forall k: nat, x, y :: order.answer(k, x, y) == lt(x, y)
  }

  predicate Le<T>(lt: (T, T) -> bool, x: T, y: T) {
    !lt(y, x)
  }

  lemma LeTransitive<T(!new)>(lt: (T, T) -> bool, x: T, y: T, z: T)
    requires StrictWeak(lt) && Le(lt, x, y) && Le(lt, y, z)
    ensures Le(lt, x, z)
  {
    assert lt(z, x) ==> lt(z, y) || lt(y, x);
  }

  lemma LtIsLe<T(!new)>(lt: (T, T) -> bool, x: T, y: T)
    requires StrictWeak(lt) && lt(x, y)
    ensures Le(lt, x, y)
  {
    assert lt(y, x) ==> lt(x, x);
  }

  // s[l..u] is sorted; both ends are included.
  ghost predicate Sorted<T>(lt: (T, T) -> bool, s: seq<T>, l: int, u: int)
    requires 0 <= l && u < |s|
  {
    forall p, q :: l <= p < q <= u ==> Le(lt, s[p], s[q])
  }

  // ----------------------------------------------------------------- permutations

  // t is s with the slots l to u, both included, in some other order.
  ghost predicate Permuted<T>(s: seq<T>, t: seq<T>, l: int, u: int) {
    && |t| == |s|
    && (forall k :: 0 <= k < |s| && !(l <= k <= u) ==> t[k] == s[k])
    && multiset(t) == multiset(s)
  }

  lemma PermutedInside<T>(s: seq<T>, t: seq<T>, l: int, u: int)
    requires 0 <= l <= u + 1 && u < |s| && Permuted(s, t, l, u)
    ensures multiset(t[l..u + 1]) == multiset(s[l..u + 1])
  {
    assert t[..l] == s[..l] && t[u + 1..] == s[u + 1..];
    ThreeParts(s, l, u + 1);
    ThreeParts(t, l, u + 1);
  }

  lemma ThreeParts<T>(s: seq<T>, l: int, m: int)
    requires 0 <= l <= m <= |s|
    ensures multiset(s[l..m]) == multiset(s) - multiset(s[..l]) - multiset(s[m..])
  {
    assert s == s[..l] + s[l..m] + s[m..];
  }

  // Each value in the permuted slots was in one of them before.
  lemma PermutedFrom<T>(s: seq<T>, t: seq<T>, l: int, u: int, k: int) returns (k': int)
    requires 0 <= l <= k <= u < |s| && Permuted(s, t, l, u)
    ensures l <= k' <= u && s[k'] == t[k]
  {
    PermutedInside(s, t, l, u);
    assert t[k] == t[l..u + 1][k - l];
    assert t[k] in multiset(s[l..u + 1]);
    var i :| 0 <= i < |s[l..u + 1]| && s[l..u + 1][i] == t[k];
    k' := l + i;
  }

  lemma PermutedSelf<T>(s: seq<T>, l: int, u: int)
    ensures Permuted(s, s, l, u)
  {
  }

  lemma PermutedTwice<T>(s: seq<T>, t: seq<T>, r: seq<T>, l: int, u: int, l': int, u': int)
    requires Permuted(s, t, l, u) && Permuted(t, r, l', u') && l <= l' && u' <= u
    ensures Permuted(s, r, l, u)
  {
  }

  function Swapped<T>(s: seq<T>, i: int, j: int): seq<T>
    requires 0 <= i < |s| && 0 <= j < |s|
  {
    s[i := s[j]][j := s[i]]
  }

  lemma SwapPermutes<T>(s: seq<T>, i: int, j: int, l: int, u: int)
    requires 0 <= l <= i <= u < |s| && l <= j <= u
    ensures Permuted(s, Swapped(s, i, j), l, u)
  {
  }

  // ------------------------------------------------------------------ the invariant

  // Of the slots l0 to u0, only those from l to u may still be out of order among themselves.
  ghost predicate OrderedBut<T>(lt: (T, T) -> bool, s: seq<T>, l0: int, u0: int, l: int, u: int)
    requires 0 <= l0 && u0 < |s|
  {
    forall p, q :: l0 <= p < q <= u0 && (p < l || u < q) ==> Le(lt, s[p], s[q])
  }

  // The slot i splits l to u: nothing before it is larger, nothing behind it is smaller.
  ghost predicate SplitAt<T>(lt: (T, T) -> bool, s: seq<T>, l: int, u: int, i: int)
    requires 0 <= l <= i <= u < |s|
  {
    && (forall k :: l <= k < i ==> Le(lt, s[k], s[i]))
    && (forall k :: i < k <= u ==> Le(lt, s[i], s[k]))
  }

  lemma OrderedButPermuted<T>(lt: (T, T) -> bool, s: seq<T>, t: seq<T>, l0: int, u0: int, l: int, u: int)
    requires 0 <= l0 <= l && u <= u0 < |s| && OrderedBut(lt, s, l0, u0, l, u) && Permuted(s, t, l, u)
    ensures OrderedBut(lt, t, l0, u0, l, u)
  {
    forall p, q | l0 <= p < q <= u0 && (p < l || u < q) ensures Le(lt, t[p], t[q]) {
      var p', q' := p, q;
      if l <= p <= u {
        p' := PermutedFrom(s, t, l, u, p);
      }
      if l <= q <= u {
        q' := PermutedFrom(s, t, l, u, q);
      }
      assert Le(lt, s[p'], s[q']);
    }
  }

  // With slot i in its place, the two parts on its sides are independent.
  lemma OrderedButSplit<T(!new)>(lt: (T, T) -> bool, s: seq<T>, l0: int, u0: int, l: int, u: int, i: int)
    requires StrictWeak(lt) && 0 <= l0 <= l <= i <= u <= u0 < |s|
    requires OrderedBut(lt, s, l0, u0, l, u) && SplitAt(lt, s, l, u, i)
    ensures forall p, q :: l0 <= p < q <= u0 && !(l <= p && q < i) && !(i < p && q <= u) ==> Le(lt, s[p], s[q])
  {
    forall p, q | l0 <= p < q <= u0 && !(l <= p && q < i) && !(i < p && q <= u) ensures Le(lt, s[p], s[q]) {
      if l <= p && q <= u {
        if p < i && i < q {
          LeTransitive(lt, s[p], s[i], s[q]);
        }
      }
    }
  }

  // Sorting the part from j to k on one side of slot i leaves only the part on the other side.
  lemma OneSideLeft<T(!new)>(lt: (T, T) -> bool, s: seq<T>, t: seq<T>,
                             l0: int, u0: int, l: int, u: int, i: int, left: bool)
    requires StrictWeak(lt) && 0 <= l0 <= l <= i <= u <= u0 < |s|
    requires OrderedBut(lt, s, l0, u0, l, u) && SplitAt(lt, s, l, u, i)
    requires if left then Permuted(s, t, l, i - 1) && Sorted(lt, t, l, i - 1)
             else Permuted(s, t, i + 1, u) && Sorted(lt, t, i + 1, u)
    ensures if left then OrderedBut(lt, t, l0, u0, i + 1, u) else OrderedBut(lt, t, l0, u0, l, i - 1)
  {
    OrderedButSplit(lt, s, l0, u0, l, u, i);
    var a, b := if left then l else i + 1, if left then i - 1 else u;
    forall p, q | l0 <= p < q <= u0 && (if left then p < i + 1 || u < q else p < l || i - 1 < q)
      ensures Le(lt, t[p], t[q])
    {
      if !(a <= p && q <= b) {
        var p', q' := p, q;
        if a <= p <= b {
          p' := PermutedFrom(s, t, a, b, p);
        }
        if a <= q <= b {
          q' := PermutedFrom(s, t, a, b, q);
        }
        assert Le(lt, s[p'], s[q']);
      }
    }
  }

  // --------------------------------------------------------------------- the sort

  // set2 after pushing a[j] and a[i].
  method Swap<T>(a: array<T>, i: int, j: int, ghost l: int, ghost u: int)
    requires 0 <= l <= i <= u < a.Length && l <= j <= u
    modifies a
    ensures a[..] == Swapped(old(a[..]), i, j)
    ensures a[i] == old(a[j]) && a[j] == old(a[i])
    ensures forall k :: 0 <= k < a.Length && k != i && k != j ==> a[k] == old(a[k])
    ensures Permuted(old(a[..]), a[..], l, u)
  {
    a[i], a[j] := a[j], a[i];
    SwapPermutes(old(a[..]), i, j, l, u);
    assert a[..] == Swapped(old(a[..]), i, j);
  }

  // Swaps a[l] and a[u] if they are out of order.
  method SortEnds<T(!new)>(a: array<T>, l: int, u: int, order: Order<T>, ghost lt: (T, T) -> bool)
    requires 0 <= l < u < a.Length
    modifies a, order
    ensures Permuted(old(a[..]), a[..], l, u)
    ensures Steady(order, lt) ==> Le(lt, a[l], a[u])
  {
    hide StrictWeak;
    hide Permuted;
    PermutedSelf(a[..], l, u);
    var less := order.Less(a[u], a[l]);
    if less {
      if Steady(order, lt) {
        LtIsLe(lt, a[u], a[l]);
      }
      Swap(a, l, u, l, u);
    }
  }

  // Puts a[(l+u)/2] in order between a[l] and a[u].
  method SortMiddle<T(!new)>(a: array<T>, l: int, u: int, order: Order<T>, ghost lt: (T, T) -> bool) returns (i: int)
    requires 0 <= l < u - 1 && u < a.Length
    requires Steady(order, lt) ==> Le(lt, a[l], a[u])
    modifies a, order
    ensures i == (l + u) / 2
    ensures Permuted(old(a[..]), a[..], l, u)
    ensures Steady(order, lt) ==> Le(lt, a[l], a[u]) && Le(lt, a[l], a[i]) && Le(lt, a[i], a[u])
  {
    hide StrictWeak;
    hide Permuted;
    PermutedSelf(a[..], l, u);
    i := (l + u) / 2;
    var less := order.Less(a[i], a[l]);
    if less {
      if Steady(order, lt) {
        LtIsLe(lt, a[i], a[l]);
        LeTransitive(lt, a[i], a[l], a[u]);
      }
      Swap(a, i, l, l, u);
    } else {
      less := order.Less(a[u], a[i]);
      if less {
        if Steady(order, lt) {
          LtIsLe(lt, a[u], a[i]);
          LeTransitive(lt, a[l], a[u], a[i]);
        }
        Swap(a, i, u, l, u);
      }
    }
  }

  datatype Result = Done | Invalid   // Invalid: "invalid order function for sorting"

  // The slots up to i are not greater than the pivot, those from j on not less.
  ghost predicate Parted<T>(lt: (T, T) -> bool, s: seq<T>, l: int, u: int, i: int, j: int, P: T)
    requires 0 <= l <= u < |s| && i < |s| && l <= j
  {
    && (forall k :: l <= k <= i ==> Le(lt, s[k], P))
    && (forall k :: j <= k <= u ==> Le(lt, P, s[k]))
  }

  // The next slot behind i0 that is not less than the pivot; fails if a[u] still is.
  method ScanUp<T(!new)>(a: array<T>, l: int, u: int, i0: int, j: int, P: T,
                         order: Order<T>, ghost lt: (T, T) -> bool)
    returns (ok: bool, i: int)
    requires 0 <= l <= i0 < u - 1 && u < a.Length && l <= j && a[u - 1] == P
    requires Steady(order, lt) ==> Parted(lt, a[..], l, u, i0, j, P)
    modifies order
    ensures i0 < i <= u
    ensures Steady(order, lt) ==> ok && i <= u - 1 && !lt(a[i], P) && Parted(lt, a[..], l, u, i - 1, j, P)
  {
    hide StrictWeak;
    ghost var sw := Steady(order, lt);
    if sw {
      Irreflexive(lt, P);
    }
    i := i0 + 1;
    var less := order.Less(a[i], P);
    while less
      invariant i0 < i <= u && (sw ==> i <= u - 1 && less == lt(a[i], P))
      invariant sw ==> Parted(lt, a[..], l, u, i - 1, j, P)
      decreases u - i
    {
      if i >= u {
        return false, i;
      }
      if sw {
        LtIsLe(lt, a[i], P);
      }
      i := i + 1;
      less := order.Less(a[i], P);
    }
    ok := true;
  }

  // The next slot before j0 that is not greater than the pivot; fails if a[l] still is.
  method ScanDown<T(!new)>(a: array<T>, l: int, u: int, i: int, j0: int, P: T,
                           order: Order<T>, ghost lt: (T, T) -> bool)
    returns (ok: bool, j: int)
    requires 0 <= l < j0 <= u < a.Length && l < i <= u
    requires Steady(order, lt) ==> Parted(lt, a[..], l, u, i - 1, j0, P)
    modifies order
    ensures l <= j < j0
    ensures Steady(order, lt) ==> ok && !lt(P, a[j]) && Parted(lt, a[..], l, u, i - 1, j + 1, P)
  {
    hide StrictWeak;
    ghost var sw := Steady(order, lt);
    j := j0 - 1;
    var less := order.Less(P, a[j]);
    while less
      invariant l <= j < j0 && (sw ==> less == lt(P, a[j]))
      invariant sw ==> Parted(lt, a[..], l, u, i - 1, j + 1, P)
      decreases j
    {
      if j <= l {
        return false, j;
      }
      if sw {
        LtIsLe(lt, P, a[j]);
      }
      j := j - 1;
      less := order.Less(P, a[j]);
    }
    ok := true;
  }

  lemma PartedStart<T(!new)>(lt: (T, T) -> bool, s: seq<T>, l: int, u: int, P: T)
    requires StrictWeak(lt) && 0 <= l < u - 1 && u < |s| && s[u - 1] == P && Le(lt, s[l], P) && Le(lt, P, s[u])
    ensures Parted(lt, s, l, u, l, u - 1, P)
  {
    Irreflexive(lt, P);
  }

  lemma PartedSwap<T>(lt: (T, T) -> bool, s: seq<T>, t: seq<T>, l: int, u: int, i: int, j: int, P: T)
    requires 0 <= l <= i <= j <= u < |s| && t == Swapped(s, i, j)
    requires Parted(lt, s, l, u, i - 1, j + 1, P) && !lt(s[i], P) && !lt(P, s[j])
    ensures Parted(lt, t, l, u, i, j, P)
  {
  }

  lemma PartedEnd<T>(lt: (T, T) -> bool, s: seq<T>, t: seq<T>, l: int, u: int, i: int, j: int, P: T)
    requires 0 <= l <= j < i < u < |s| && t == Swapped(s, u - 1, i) && s[u - 1] == P
    requires Parted(lt, s, l, u, i - 1, j + 1, P) && !lt(s[i], P)
    ensures SplitAt(lt, t, l, u, i)
  {
  }

  // Splits l to u around the pivot a[i0]; a[l] and a[u] are already on the right side of it.
  method Partition<T(!new)>(a: array<T>, l: int, u: int, i0: int, order: Order<T>, ghost lt: (T, T) -> bool)
    returns (r: Result, i: int)
    requires 0 <= l && l + 3 <= u < a.Length && i0 == (l + u) / 2
    requires Steady(order, lt) ==> Le(lt, a[l], a[i0]) && Le(lt, a[i0], a[u])
    modifies a, order
    ensures Permuted(old(a[..]), a[..], l, u)
    ensures r.Done? ==> l < i <= u
    ensures Steady(order, lt) ==> r.Done? && SplitAt(lt, a[..], l, u, i)
  {
    hide StrictWeak;
    hide Permuted;
    hide Parted;
    hide SplitAt;
    hide Swapped;
    ghost var sw, s0, s1 := Steady(order, lt), a[..], a[..];
    var P := a[i0];
    Swap(a, i0, u - 1, l, u);
    i := l;
    var j := u - 1;
    if sw {
      assert l < i0 < u && Le(lt, a[l], P) && Le(lt, P, a[u]);
      PartedStart(lt, a[..], l, u, P);
    }
    while true
      invariant l <= i <= j <= u - 1 && l < j && (i > l ==> j < u - 1)
      invariant Permuted(s0, a[..], l, u) && a[u - 1] == P
      invariant sw ==> Parted(lt, a[..], l, u, i, j, P)
      decreases j
    {
      s1 := a[..];
      var ok;
      ok, i := ScanUp(a, l, u, i, j, P, order, lt);
      if !ok {
        return Invalid, i;
      }
      ok, j := ScanDown(a, l, u, i, j, P, order, lt);
      if !ok {
        return Invalid, i;
      }
      if j < i {
        break;
      }
      Swap(a, i, j, l, u);
      assert a[u - 1] == P;
      PermutedTwice(s0, s1, a[..], l, u, l, u);
      if sw {
        PartedSwap(lt, s1, a[..], l, u, i, j, P);
      }
    }
    s1 := a[..];
    Swap(a, u - 1, i, l, u);
    PermutedTwice(s0, s1, a[..], l, u, l, u);
    if sw {
      PartedEnd(lt, s1, a[..], l, u, i, j, P);
    }
    r := Done;
  }

  lemma Irreflexive<T(!new)>(lt: (T, T) -> bool, x: T)
    requires StrictWeak(lt)
    ensures !lt(x, x)
  {
  }

  function Max(a: int, b: int): int {
    if a > b then a else b
  }

  // auxsort. Whatever the comparison function answers, and be it something else each time, the result is
  // a permutation, only slots from l to u are touched, and the recursion is at most log2 of their number
  // deep. If it answers as a strict weak order does, the result is sorted and it is not called invalid.
  method AuxSort<T(!new)>(a: array<T>, l0: int, u0: int, order: Order<T>, ghost lt: (T, T) -> bool)
    returns (r: Result, ghost depth: nat)
    requires 0 <= l0 <= u0 + 1 && u0 < a.Length
    modifies a, order
    ensures Permuted(old(a[..]), a[..], l0, u0)
    ensures Pow2(depth) <= Max(1, u0 - l0 + 1)
    ensures Steady(order, lt) ==> r.Done? && Sorted(lt, a[..], l0, u0)
    decreases u0 - l0 + 1
  {
    hide StrictWeak;
    hide Permuted;
    hide SplitAt;
    hide OrderedBut;
    hide Sorted;
    ghost var s0, s1 := a[..], a[..];
    ghost var sw := Steady(order, lt);
    var l, u := l0, u0;
    depth := 0;
    PermutedSelf(s0, l, u);
    StartOrdered(lt, s0, l, u);
    while l < u
      invariant l0 <= l <= u + 1 <= u0 + 1
      invariant Permuted(s0, a[..], l0, u0)
      invariant sw ==> OrderedBut(lt, a[..], l0, u0, l, u)
      invariant Pow2(depth) <= Max(1, u0 - l0 + 1)
      decreases u - l + 1
    {
      s1 := a[..];
      SortEnds(a, l, u, order, lt);
      Narrowed(lt, s0, s1, a[..], l0, u0, l, u, sw);
      if u - l == 1 {
        if sw {
          LastTwo(lt, a[..], l0, u0, l, u);
        }
        return Done, depth;
      }
      s1 := a[..];
      var i := SortMiddle(a, l, u, order, lt);
      Narrowed(lt, s0, s1, a[..], l0, u0, l, u, sw);
      if u - l == 2 {
        if sw {
          LastThree(lt, a[..], l0, u0, l, u);
        }
        return Done, depth;
      }
      s1 := a[..];
      var ok;
      ok, i := Partition(a, l, u, i, order, lt);
      Narrowed(lt, s0, s1, a[..], l0, u0, l, u, sw);
      if ok.Invalid? {
        return Invalid, depth;
      }
      ghost var l1, u1, m := l, u, i;
      var j;
      if i - l < u - i {
        j := l;
        i := i - 1;
        l := i + 2;
      } else {
        j := i + 1;
        i := u;
        u := j - 2;
      }
      s1 := a[..];
      ghost var d;
      ok, d := AuxSort(a, j, i, order, lt);
      ghost var s2 := a[..];
      PermutedTwice(s0, s1, s2, l0, u0, j, i);
      if sw {
        OneSideLeft(lt, s1, s2, l0, u0, l1, u1, m, j == l1);
      }
      if depth < d + 1 {
        depth := d + 1;
      }
      if ok.Invalid? {
        return Invalid, depth;
      }
    }
    r := Done;
    if sw {
      NothingLeft(lt, a[..], l0, u0, l, u);
    }
  }

  lemma StartOrdered<T>(lt: (T, T) -> bool, s: seq<T>, l: int, u: int)
    requires 0 <= l && u < |s|
    ensures OrderedBut(lt, s, l, u, l, u)
  {
  }

  lemma NothingLeft<T>(lt: (T, T) -> bool, s: seq<T>, l0: int, u0: int, l: int, u: int)
    requires 0 <= l0 && u0 < |s| && OrderedBut(lt, s, l0, u0, l, u) && l >= u
    ensures Sorted(lt, s, l0, u0)
  {
  }

  lemma LastTwo<T>(lt: (T, T) -> bool, s: seq<T>, l0: int, u0: int, l: int, u: int)
    requires 0 <= l0 <= l && u <= u0 < |s| && OrderedBut(lt, s, l0, u0, l, u) && u == l + 1 && Le(lt, s[l], s[u])
    ensures Sorted(lt, s, l0, u0)
  {
  }

  lemma LastThree<T>(lt: (T, T) -> bool, s: seq<T>, l0: int, u0: int, l: int, u: int)
    requires 0 <= l0 <= l && u <= u0 < |s| && OrderedBut(lt, s, l0, u0, l, u) && u == l + 2
    requires Le(lt, s[l], s[u]) && Le(lt, s[l], s[l + 1]) && Le(lt, s[l + 1], s[u])
    ensures Sorted(lt, s, l0, u0)
  {
  }

  // A permutation of the slots l to u within the sort keeps its invariant.
  lemma Narrowed<T>(lt: (T, T) -> bool, s0: seq<T>, s: seq<T>, t: seq<T>, l0: int, u0: int, l: int, u: int, sw: bool)
    requires 0 <= l0 <= l && u <= u0 < |s| && Permuted(s0, s, l0, u0) && Permuted(s, t, l, u)
    requires sw ==> OrderedBut(lt, s, l0, u0, l, u)
    ensures Permuted(s0, t, l0, u0)
    ensures sw ==> OrderedBut(lt, t, l0, u0, l, u)
  {
    PermutedTwice(s0, s, t, l0, u0, l, u);
    if sw {
      OrderedButPermuted(lt, s, t, l0, u0, l, u);
    }
  }

  // table.sort on a table of n slots; slot 0 is not part of it.
  method TableSort<T(!new)>(a: array<T>, n: nat, order: Order<T>, ghost lt: (T, T) -> bool) returns (r: Result)
    requires n < a.Length
    modifies a, order
    ensures Permuted(old(a[..]), a[..], 1, n)
    ensures Steady(order, lt) ==> r.Done? && Sorted(lt, a[..], 1, n)
  {
    ghost var depth;
    r, depth := AuxSort(a, 1, n, order, lt);
  }
}
