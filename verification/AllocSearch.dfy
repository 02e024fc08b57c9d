/** The best fitting chunk of the tree bins: the searches of tmalloc_large and tmalloc_small. */
module AllocSearch {
  import opened AllocBins
  import opened AllocLinks
  import opened AllocMaps
  import opened AllocSizes
  import opened AllocTrie
  import opened AllocTrieLinks
  import opened Powers

  // Subtraction of two size_t.
  function Minus(a: nat, b: nat): nat
    requires a < TWO64 && b < TWO64
  {
    if a >= b then a - b else a - b + TWO64
  }

  // The least size along the leftmost path.
  ghost function Least(t: Trie): nat
    requires t.Node?
  {
    var below := if t.left.Node? then Least(t.left) else if t.right.Node? then Least(t.right) else t.size;
    if t.size < below then t.size else below
  }

  // It is the least of all.
  lemma {:induction false} LeastIsLeast(t: Trie, lo: nat, e: nat, s: nat)
    requires t.Node? && InRange(t, lo, e) && s in Sizes(t)
    ensures Least(t) <= s
    decreases t
  {
    if t.left.Node? {
      LeastIsLeast(t.left, lo, e - 1, if s in Sizes(t.left) then s else t.left.size);
      SizesInRange(t.left, lo, e - 1, t.left.size);
      if s in Sizes(t.right) {
        SizesInRange(t.right, lo + Pow2(e - 1), e - 1, s);
      }
    } else if t.right.Node? && s in Sizes(t.right) {
      LeastIsLeast(t.right, lo + Pow2(e - 1), e - 1, s);
    }
  }

  lemma {:induction false} LeastIn(t: Trie)
    requires t.Node?
    ensures Least(t) in Sizes(t)
    decreases t
  {
    if t.left.Node? {
      LeastIn(t.left);
    } else if t.right.Node? {
      LeastIn(t.right);
    }
  }

  // What the search knows of the best chunk so far: 0 with the unsigned -nb, or a chunk that fits.
  ghost predicate Candidate(v: Addr, rsize: nat, nb: nat, sizes: map<Addr, nat>) {
    if v == 0 then nb + rsize == TWO64
    else v in sizes && !IsSmall(sizes[v]) && sizes[v] == nb + rsize < TWO64
  }

  ghost predicate SameSizes(chunksize: map<Addr, nat>, sizes: map<Addr, nat>) {
    forall x :: x in sizes ==> x in chunksize && chunksize[x] == sizes[x]
  }

  // A subtree of u that the search stands at, by its first chunk t.
  ghost predicate Under(m: Memory, u: Trie, cur: Trie, t: Addr, up: Link, i: nat, sizes: map<Addr, nat>) {
    && t == Root(cur) && Proper(cur) && Wired(m, cur, up, i) && Sized(cur, sizes) && (t == 0 <==> cur.Nil?)
    && Members(cur) <= Members(u) && Sizes(cur) <= Sizes(u)
  }

  lemma UnderItself(m: Memory, u: Trie, up: Link, i: nat, sizes: map<Addr, nat>)
    requires Proper(u) && Wired(m, u, up, i) && Sized(u, sizes)
    ensures Under(m, u, u, Root(u), up, i, sizes)
  {
    RootMember(u);
  }

  lemma UnderStep(m: Memory, u: Trie, cur: Trie, t: Addr, up: Link, i: nat, sizes: map<Addr, nat>)
    requires Under(m, u, cur, t, up, i, sizes) && cur.Node?
    ensures t > 0 && t in Members(u) && t in sizes && sizes[t] == cur.size && cur.size in Sizes(u)
    ensures Under(m, u, cur.left, Get(m, t).left, Chunk(t), i, sizes)
    ensures Under(m, u, cur.right, Get(m, t).right, Chunk(t), i, sizes)
  {
    ChildLinks(m, cur, up, i);
    assert t in cur.ring;
  }

  // The walk down the leftmost path from t, the root of `u`; it finds the smallest chunk there, if
  // all fit.
  method Leftmost(b: Bins, t0: Addr, v0: Addr, rsize0: nat, nb: nat, chunksize: map<Addr, nat>,
                  ghost u: Trie, ghost up: Link, ghost i: nat, ghost lo: nat, ghost e: nat)
    returns (v: Addr, rsize: nat)
    requires SameSizes(chunksize, b.sizes) && 0 < nb < TWO64 && rsize0 < TWO64
    requires Under(b.mem, u, u, t0, up, i, b.sizes) && InRange(u, lo, e)
    requires forall x :: x in Members(u) ==> x in b.sizes && !IsSmall(b.sizes[x]) && b.sizes[x] < 0x100_0000_0000
    requires Candidate(v0, rsize0, nb, b.sizes)
    ensures Candidate(v, rsize, nb, b.sizes) && rsize <= rsize0 && (v == 0 ==> v0 == 0)
    ensures (v == v0 && rsize == rsize0) || (v in Members(u) && rsize < rsize0)
    ensures u.Node? && (forall s :: s in Sizes(u) ==> s >= nb) ==> nb + rsize <= Least(u)
  {
    hide Under;
    hide InRange;
    hide Members;
    v, rsize := v0, rsize0;
    var t := t0;
    ghost var cur, cup := u, up;
    NullIsNil(b.mem, u, cur, t, cup, i, b.sizes);
    while t != 0
      invariant Under(b.mem, u, cur, t, cup, i, b.sizes) && (t == 0 <==> cur.Nil?)
      invariant Candidate(v, rsize, nb, b.sizes) && rsize <= rsize0 && (v == 0 ==> v0 == 0)
      invariant (v == v0 && rsize == rsize0) || (v in Members(u) && rsize < rsize0)
      invariant u.Node? && (forall s :: s in Sizes(u) ==> s >= nb) ==>
        nb + rsize <= Least(u) || (cur.Node? && Least(cur) == Least(u))
      decreases cur
    {
      UnderStep(b.mem, u, cur, t, cup, i, b.sizes);
      var trem := Minus(chunksize[t], nb);
      if trem < rsize {
        rsize := trem;
        v := t;
      }
      ghost var next := if cur.left.Node? then cur.left else cur.right;
      NullIsNil(b.mem, u, cur.left, Get(b.mem, t).left, Chunk(t), i, b.sizes);
      cup := Chunk(t);
      t := if Get(b.mem, t).left != 0 then Get(b.mem, t).left else Get(b.mem, t).right;
      NullIsNil(b.mem, u, next, t, cup, i, b.sizes);
      cur := next;
    }
  }

  lemma NullIsNil(m: Memory, u: Trie, cur: Trie, t: Addr, up: Link, i: nat, sizes: map<Addr, nat>)
    requires Under(m, u, cur, t, up, i, sizes)
    ensures t == 0 <==> cur.Nil?
  {
  }

  // ------------------------------------------------------------ the way towards nb

  // Every size of u that is large enough is still ahead in `cur`, or no better than the candidate, or
  // than the least size in `rst`, the deepest right subtree that was not taken. k are the bits of nb
  // that are left.
  ghost predicate Pending(u: Trie, cur: Trie, rst: Trie, lo: nat, e: nat, k: nat, v: Addr, rsize: nat, nb: nat) {
    && lo <= nb < lo + Pow2(e) && Halves(k, Pow2(e), nb - lo)
    && (forall r :: r in Sizes(rst) ==> r >= lo + Pow2(e))
    && Ahead(u, cur, rst, v, rsize, nb)
  }

  ghost predicate Ahead(u: Trie, cur: Trie, rst: Trie, v: Addr, rsize: nat, nb: nat) {
    forall s :: s in Sizes(u) && s >= nb ==>
      s in Sizes(cur) || (v != 0 && nb + rsize <= s) || (rst.Node? && Least(rst) <= s)
  }

  // The untaken right subtree after one step, if any.
  function Untaken(cur: Trie, side: bool, rst: Trie): Trie
    requires cur.Node?
  {
    if !side && cur.right.Node? then cur.right else rst
  }

  lemma PendingStep(u: Trie, cur: Trie, rst: Trie, lo: nat, e: nat, k: nat, v: Addr, rsize: nat, nb: nat)
    requires cur.Node? && InRange(cur, lo, e) && Pending(u, cur, rst, lo, e, k, v, rsize, nb) && cur.size != nb
    requires cur.size >= nb ==> v != 0 && nb + rsize <= cur.size
    ensures e > 0
    ensures var side := k >= TWO63;
      Pending(u, Child(cur, side), Untaken(cur, side, rst), HalfLo(lo, e, side), e - 1, ShiftLeft(k), v, rsize, nb)
  {
    var side := k >= TWO63;
    WhichSide(cur, nb, lo, e, k);
    var rst' := Untaken(cur, side, rst);
    HalfSizes(cur, lo, e);
    StillAhead(u, cur, rst, lo, e, side, v, rsize, nb);
    hide Halves;
    hide ShiftLeft;
    hide Ahead;
    hide InRange;
    hide Least;
    assert Pow2(e) == 2 * Pow2(e - 1);
  }

  lemma StillAhead(u: Trie, cur: Trie, rst: Trie, lo: nat, e: nat, side: bool, v: Addr, rsize: nat, nb: nat)
    requires cur.Node? && InRange(cur, lo, e) && e > 0 && Ahead(u, cur, rst, v, rsize, nb)
    requires lo <= nb < lo + Pow2(e) && cur.size != nb && (cur.size >= nb ==> v != 0 && nb + rsize <= cur.size)
    requires side <==> nb >= lo + Pow2(e - 1)
    requires forall r :: r in Sizes(rst) ==> r >= lo + Pow2(e)
    ensures Ahead(u, Child(cur, side), Untaken(cur, side, rst), v, rsize, nb)
  {
    var rst' := Untaken(cur, side, rst);
    HalfSizes(cur, lo, e);
    forall s | s in Sizes(u) && s >= nb
      ensures s in Sizes(Child(cur, side)) || (v != 0 && nb + rsize <= s) || (rst'.Node? && Least(rst') <= s)
    {
      assert s in Sizes(cur) ==> s == cur.size || s in Sizes(cur.left) || s in Sizes(cur.right);
      if s in Sizes(cur.right) && !side {
        assert cur.right.Node?;
        LeastIsLeast(cur.right, lo + Pow2(e - 1), e - 1, s);
      } else if rst.Node? && Least(rst) <= s && !side && cur.right.Node? {
        LeastIn(rst);
        LeastIn(cur.right);
      }
    }
  }

  lemma HalfSizes(t: Trie, lo: nat, e: nat)
    requires t.Node? && InRange(t, lo, e) && e > 0
    ensures forall s :: s in Sizes(t.left) ==> lo <= s < lo + Pow2(e - 1)
    ensures forall s :: s in Sizes(t.right) ==> lo + Pow2(e - 1) <= s < lo + Pow2(e)
  {
    forall s | s in Sizes(t.left) ensures lo <= s < lo + Pow2(e - 1) {
      SizesInRange(t.left, lo, e - 1, s);
    }
    forall s | s in Sizes(t.right) ensures lo + Pow2(e - 1) <= s < lo + Pow2(e) {
      SizesInRange(t.right, lo + Pow2(e - 1), e - 1, s);
    }
  }

  // The first part of tmalloc_large: down the bin of nb, as far as there is a subtree for its bits. It
  // ends at a chunk of size nb, or with the deepest untaken right subtree.
  method Descend(b: Bins, t0: Addr, nb: nat, idx: nat, chunksize: map<Addr, nat>, ghost u: Trie)
    returns (t: Addr, v: Addr, rsize: nat, ghost rst: Trie, ghost rup: Link, ghost rlo: nat, ghost re: nat)
    requires SameSizes(chunksize, b.sizes) && 0 < nb < TWO64 && idx < NTREEBINS
    requires Under(b.mem, u, u, t0, Slot(idx), idx, b.sizes) && InRange(u, BinLo(idx), BinBits(idx)) && u.Node?
    requires forall x :: x in Members(u) ==> x in b.sizes && !IsSmall(b.sizes[x]) && b.sizes[x] < 0x100_0000_0000
    ensures Candidate(v, rsize, nb, b.sizes) && (v != 0 ==> v in Members(u))
    ensures Under(b.mem, u, rst, t, rup, idx, b.sizes) && InRange(rst, rlo, re)
    ensures BinLo(idx) <= nb < BinLo(idx) + Pow2(BinBits(idx)) ==>
      (v != 0 && rsize == 0) || (Ahead(u, Nil, rst, v, rsize, nb) && forall r :: r in Sizes(rst) ==> r >= nb)
  {
    hide Under;
    hide InRange;
    hide Members;
    hide Pending;
    hide Ahead;
    hide ShiftLeft;
    hide Pow2;
    hide Wired;
    hide Sized;
    ghost var fits := BinLo(idx) <= nb < BinLo(idx) + Pow2(BinBits(idx));
    v, rsize, t := 0, TWO64 - nb, t0;
    var k: nat := SizeBitsFor(idx, nb);
    var rstAt: Addr := 0;
    ghost var cur, cup, lo: nat, e: nat := u, Slot(idx), BinLo(idx), BinBits(idx);
    rst, rup, rlo, re := Nil, Null, 0, 0;
    StartPending(b.mem, u, idx, nb, b.sizes, k, fits);
    while true
      invariant Under(b.mem, u, cur, t, cup, idx, b.sizes) && cur.Node? && InRange(cur, lo, e)
      invariant Under(b.mem, u, rst, rstAt, rup, idx, b.sizes) && InRange(rst, rlo, re)
      invariant Candidate(v, rsize, nb, b.sizes) && (v != 0 ==> v in Members(u)) && k < TWO64 && 0 < rsize < TWO64
      invariant fits ==> Pending(u, cur, rst, lo, e, k, v, rsize, nb)
      decreases cur
    {
      UnderStep(b.mem, u, cur, t, cup, idx, b.sizes);
      var trem := Minus(chunksize[t], nb);
      ghost var v1, rsize1 := v, rsize;
      if trem < rsize {
        v := t;
        rsize := trem;
        if rsize == 0 {
          rst, rup, rlo, re := cur, cup, lo, e;
          return;
        }
      }
      var side := k >= TWO63;
      if fits {
        BetterCandidate(u, cur, rst, lo, e, k, v1, rsize1, v, rsize, nb);
        PendingStep(u, cur, rst, lo, e, k, v, rsize, nb);
      }
      NullIsNil(b.mem, u, cur.left, Get(b.mem, t).left, Chunk(t), idx, b.sizes);
      NullIsNil(b.mem, u, cur.right, Get(b.mem, t).right, Chunk(t), idx, b.sizes);
      ChildInRange(cur, lo, e);
      var rt := Get(b.mem, t).right;
      var next := ChildOf(b.mem, t, side);
      ghost var rst1 := Untaken(cur, side, rst);
      if rt != 0 && rt != next {
        rstAt := rt;
        rst, rup, rlo, re := cur.right, Chunk(t), HalfLo(lo, e, true), e - 1;
      }
      SidesDiffer(b.mem, u, cur, t, cup, idx, b.sizes);
      if next == 0 {
        t := rstAt;
        if fits {
          EndPending(u, Child(cur, side), rst, HalfLo(lo, e, side), e - 1, ShiftLeft(k), v, rsize, nb);
        }
        return;
      }
      cup := Chunk(t);
      t := next;
      cur, lo, e := Child(cur, side), HalfLo(lo, e, side), e - 1;
      k := ShiftLeft(k);
    }
  }

  lemma StartPending(m: Memory, u: Trie, idx: nat, nb: nat, sizes: map<Addr, nat>, k: nat, fits: bool)
    requires idx < NTREEBINS && 0 < nb < TWO64 && k == SizeBitsFor(idx, nb)
    requires fits ==> BinLo(idx) <= nb < BinLo(idx) + Pow2(BinBits(idx))
    ensures fits ==> Pending(u, u, Nil, BinLo(idx), BinBits(idx), k, 0, TWO64 - nb, nb)
    ensures Under(m, u, Nil, 0, Null, idx, sizes) && InRange(Nil, 0, 0)
  {
    if fits {
      SizeBitsHalve(idx, nb);
    }
  }

  lemma BetterCandidate(u: Trie, cur: Trie, rst: Trie, lo: nat, e: nat, k: nat,
                        v1: Addr, rsize1: nat, v: Addr, rsize: nat, nb: nat)
    requires Pending(u, cur, rst, lo, e, k, v1, rsize1, nb) && rsize <= rsize1 && (v == 0 ==> v1 == 0)
    ensures Pending(u, cur, rst, lo, e, k, v, rsize, nb)
  {
  }

  lemma ChildInRange(t: Trie, lo: nat, e: nat)
    requires t.Node? && InRange(t, lo, e)
    ensures t.left.Node? || t.right.Node? ==> e > 0
    ensures e > 0 ==> InRange(t.left, HalfLo(lo, e, false), e - 1) && InRange(t.right, HalfLo(lo, e, true), e - 1)
  {
  }

  lemma SidesDiffer(m: Memory, u: Trie, cur: Trie, t: Addr, up: Link, i: nat, sizes: map<Addr, nat>)
    requires Under(m, u, cur, t, up, i, sizes) && cur.Node?
    ensures Get(m, t).left != 0 ==> Get(m, t).left != Get(m, t).right
  {
    ChildLinks(m, cur, up, i);
    RootMember(cur.left);
    RootMember(cur.right);
  }

  lemma EndPending(u: Trie, cur: Trie, rst: Trie, lo: nat, e: nat, k: nat, v: Addr, rsize: nat, nb: nat)
    requires cur.Nil? && Pending(u, cur, rst, lo, e, k, v, rsize, nb)
    ensures Ahead(u, Nil, rst, v, rsize, nb) && forall r :: r in Sizes(rst) ==> r >= nb
  {
  }

  // --------------------------------------------------------------- over all tree bins

  lemma {:induction false} SizeHasMember(t: Trie, sizes: map<Addr, nat>, r: nat) returns (x: Addr)
    requires Proper(t) && Sized(t, sizes) && r in Sizes(t)
    ensures x in Members(t) && x in sizes && sizes[x] == r
  {
    if r == t.size {
      x := t.ring[0];
      assert x in t.ring;
    } else if r in Sizes(t.left) {
      x := SizeHasMember(t.left, sizes, r);
    } else {
      x := SizeHasMember(t.right, sizes, r);
    }
  }

  // What a tree bin holds.
  lemma BinFacts(b: Bins, i: nat)
    requires b.Valid() && i < NTREEBINS
    ensures var u := b.tree[i];
      && |b.treebins| == NTREEBINS && (IsMarked(b.treemap, i) <==> u.Node?)
      && Under(b.mem, u, u, b.treebins[i], Slot(i), i, b.sizes) && InRange(u, BinLo(i), BinBits(i))
      && (forall x :: x in Members(u) ==> x in b.sizes && !IsSmall(b.sizes[x]) && b.sizes[x] < 0x100_0000_0000)
      && (forall r :: r in Sizes(u) ==> InBin(i, r))
    ensures forall x :: x in b.sizes && !IsSmall(b.sizes[x]) && TreeIndex(b.sizes[x]) == i ==>
      x in Members(b.tree[i]) && b.sizes[x] in Sizes(b.tree[i])
  {
    hide IsMarked;
    RootedAt(b.treemap, b.treebins, b.tree, i);
    var u := b.tree[i];
    TreeHeld(b.mem, b.small, b.tree, b.sizes, i);
    UnderItself(b.mem, u, Slot(i), i, b.sizes);
    forall x | x in Members(u) ensures x in b.sizes && b.sizes[x] < 0x100_0000_0000 {
      InItsBin(b.mem, b.small, b.tree, b.sizes, x);
    }
    forall r | r in Sizes(u) ensures InBin(i, r) {
      var x := SizeHasMember(u, b.sizes, r);
      TreeIndexRight(r);
    }
    forall x | x in b.sizes && !IsSmall(b.sizes[x]) && TreeIndex(b.sizes[x]) == i
      ensures x in Members(u) && b.sizes[x] in Sizes(u)
    {
      InItsBin(b.mem, b.small, b.tree, b.sizes, x);
      MemberSize(u, b.sizes, x);
    }
  }

  // Chunk sizes of later bins are larger.
  lemma LaterIsLarger(i: nat, a: nat, j: nat, c: nat)
    requires i < j < NTREEBINS && InBin(i, a) && InBin(j, c)
    ensures a <= c
  {
    if a > c {
      BinsOrdered(j, c, i, a);
    }
  }

  // No chunk of a tree bin fits better than the result.
  ghost predicate BestFit(v: Addr, rsize: nat, nb: nat, sizes: map<Addr, nat>) {
    && Candidate(v, rsize, nb, sizes)
    && (forall x :: x in sizes && !IsSmall(sizes[x]) && sizes[x] >= nb ==> v != 0 && sizes[v] <= sizes[x])
  }

  // What the search of the bin of nb leaves: sizes that are large enough are no better than the
  // candidate, or than the least size in u.
  ghost predicate Searched(b: Bins, nb: nat, u: Trie, v: Addr, rsize: nat)
    reads b
  {
    && |b.tree| == NTREEBINS && Members(u) <= Members(b.tree[TreeIndex(nb)]) && Sizes(u) <= Sizes(b.tree[TreeIndex(nb)])
    && (v != 0 ==> v in Members(b.tree[TreeIndex(nb)]))
    && (nb < 0x100_0000_0000 ==>
          (v != 0 && rsize == 0) ||
            (Ahead(b.tree[TreeIndex(nb)], Nil, u, v, rsize, nb) && forall r :: r in Sizes(u) ==> r >= nb))
  }

  method SearchBin(b: Bins, nb: nat, idx: nat, chunksize: map<Addr, nat>)
    returns (t: Addr, v: Addr, rsize: nat, ghost u: Trie, ghost up: Link, ghost lo: nat, ghost e: nat)
    requires b.Valid() && SameSizes(chunksize, b.sizes) && MIN_LARGE_SIZE <= nb < TWO64 && idx == TreeIndex(nb)
    ensures Candidate(v, rsize, nb, b.sizes) && Searched(b, nb, u, v, rsize) && rsize < TWO64
    ensures Under(b.mem, u, u, t, up, idx, b.sizes) && InRange(u, lo, e) && (t == 0 <==> u.Nil?)
  {
    hide Under;
    hide InRange;
    hide Members;
    hide Pow2;
    hide Holds;
    hide TreeIndex;
    v, rsize := 0, TWO64 - nb;
    BinFacts(b, idx);
    t := b.treebins[idx];
    u, up, lo, e := b.tree[idx], Slot(idx), BinLo(idx), BinBits(idx);
    UnderRoot(b.mem, u, u, t, up, idx, b.sizes);
    if t != 0 {
      ghost var all := u;
      t, v, rsize, u, up, lo, e := Descend(b, t, nb, idx, chunksize, all);
      UnderRoot(b.mem, all, u, t, up, idx, b.sizes);
      if nb < 0x100_0000_0000 {
        NbInBin(nb);
      }
    }
  }

  lemma NbInBin(nb: nat)
    requires MIN_LARGE_SIZE <= nb < 0x100_0000_0000
    ensures var i := TreeIndex(nb);
      InBin(i, nb) && BinLo(i) <= nb < BinLo(i) + Pow2(BinBits(i))
  {
    TreeIndexRight(nb);
    InBinRange(TreeIndex(nb), nb);
  }

  // The search of tmalloc_large: the smallest of all chunks in tree bins that are large enough.
  method FindBest(b: Bins, nb: nat, chunksize: map<Addr, nat>) returns (v: Addr, rsize: nat)
    requires b.Valid() && SameSizes(chunksize, b.sizes) && MIN_LARGE_SIZE <= nb < TWO64
    ensures BestFit(v, rsize, nb, b.sizes)
  {
    hide IsMarked;
    hide Under;
    hide InRange;
    hide Members;
    hide Searched;
    hide Holds;
    hide InBin;
    hide TreeIndex;
    var idx := TreeIndex(nb);
    var t;
    ghost var u, up, lo, e;
    t, v, rsize, u, up, lo, e := SearchBin(b, nb, idx, chunksize);
    BinFacts(b, idx);
    ghost var u1, v1, rsize1 := u, v, rsize;
    if t == 0 && v == 0 {
      var found, i := LowestAbove(b.treemap, idx);
      if found {
        MarkedTree(b, i);
        BinFacts(b, i);
        v, rsize := Leftmost(b, b.treebins[i], v, rsize, nb, chunksize, b.tree[i], Slot(i), i, BinLo(i), BinBits(i));
      }
      forall x | x in b.sizes && !IsSmall(b.sizes[x]) && b.sizes[x] >= nb ensures v != 0 && b.sizes[v] <= b.sizes[x] {
        BestLater(b, nb, idx, u1, rsize1, found, i, v, rsize, x);
      }
    } else {
      SearchedMembers(b, nb, u, v, rsize);
      v, rsize := Leftmost(b, t, v, rsize, nb, chunksize, u, up, idx, lo, e);
      forall x | x in b.sizes && !IsSmall(b.sizes[x]) && b.sizes[x] >= nb ensures v != 0 && b.sizes[v] <= b.sizes[x] {
        BestHere(b, nb, idx, u1, v1, rsize1, v, rsize, x);
      }
    }
  }

  lemma SearchedMembers(b: Bins, nb: nat, u: Trie, v: Addr, rsize: nat)
    requires b.Valid() && Searched(b, nb, u, v, rsize)
    ensures forall x :: x in Members(u) ==> x in b.sizes && !IsSmall(b.sizes[x]) && b.sizes[x] < 0x100_0000_0000
  {
    BinFacts(b, TreeIndex(nb));
  }

  // The result comes from the bin of nb.
  lemma BestHere(b: Bins, nb: nat, idx: nat, u: Trie, v1: Addr, rsize1: nat, v: Addr, rsize: nat, x: Addr)
    requires b.Valid() && MIN_LARGE_SIZE <= nb && idx == TreeIndex(nb) && Searched(b, nb, u, v1, rsize1)
    requires Candidate(v, rsize, nb, b.sizes) && rsize <= rsize1 && (v == 0 ==> v1 == 0) && (v1 != 0 || u.Node?)
    requires v == v1 || v in Members(u)
    requires u.Node? && (forall s :: s in Sizes(u) ==> s >= nb) ==> nb + rsize <= Least(u)
    requires x in b.sizes && !IsSmall(b.sizes[x]) && b.sizes[x] >= nb
    ensures v != 0 && b.sizes[v] <= b.sizes[x]
  {
    hide Holds;
    hide InBin;
    hide TreeIndex;
    hide Members;
    var s := b.sizes[x];
    var j := TreeIndex(s);
    BinFacts(b, idx);
    BinFacts(b, j);
    NbInBin(nb);
    assert InBin(j, s);
    if u.Node? {
      LeastIn(u);
      LeastBounded(b, idx, u);
    }
    if j != idx {
      BinsOrdered(idx, nb, j, s);
      MemberInBin(b, idx, v);
      LaterIsLarger(idx, b.sizes[v], j, s);
    }
  }

  lemma LeastBounded(b: Bins, i: nat, u: Trie)
    requires b.Valid() && i < NTREEBINS && u.Node? && Sizes(u) <= Sizes(b.tree[i])
    ensures Least(u) < 0x100_0000_0000
  {
    LeastIn(u);
    TreeHeld(b.mem, b.small, b.tree, b.sizes, i);
    var y := SizeHasMember(b.tree[i], b.sizes, Least(u));
    InItsBin(b.mem, b.small, b.tree, b.sizes, y);
  }

  lemma MemberInBin(b: Bins, i: nat, v: Addr)
    requires b.Valid() && i < NTREEBINS && v in Members(b.tree[i])
    ensures v in b.sizes && InBin(i, b.sizes[v])
  {
    TreeHeld(b.mem, b.small, b.tree, b.sizes, i);
    MemberSize(b.tree[i], b.sizes, v);
    BinFacts(b, i);
  }

  // The bin of nb holds nothing that fits, so the result comes from the next bin that is not empty.
  lemma BestLater(b: Bins, nb: nat, idx: nat, u: Trie, rsize1: nat, found: bool, i: nat, v: Addr, rsize: nat, x: Addr)
    requires b.Valid() && MIN_LARGE_SIZE <= nb && idx == TreeIndex(nb) && u.Nil? && Searched(b, nb, u, 0, rsize1)
    requires Candidate(v, rsize, nb, b.sizes)
    requires found ==> idx < i < NTREEBINS && forall j: nat :: IsMarked(b.treemap, j) && j > idx ==> i <= j
    requires !found ==> forall j: nat :: IsMarked(b.treemap, j) ==> j <= idx
    requires found ==>
      b.tree[i].Node? && ((forall s :: s in Sizes(b.tree[i]) ==> s >= nb) ==> nb + rsize <= Least(b.tree[i]))
    requires x in b.sizes && !IsSmall(b.sizes[x]) && b.sizes[x] >= nb
    ensures v != 0 && b.sizes[v] <= b.sizes[x]
  {
    hide IsMarked;
    hide Holds;
    hide InBin;
    hide TreeIndex;
    hide Members;
    var s := b.sizes[x];
    var j := TreeIndex(s);
    BinFacts(b, idx);
    BinFacts(b, j);
    NbInBin(nb);
    assert InBin(j, s);
    BinsOrdered(idx, nb, j, s);
    assert j != idx;
    assert b.tree[j].Node?;
    BinFacts(b, i);
    forall r | r in Sizes(b.tree[i]) ensures r >= nb && Least(b.tree[i]) <= r {
      LaterIsLarger(idx, nb, i, r);
      LeastIsLeast(b.tree[i], BinLo(i), BinBits(i), r);
    }
    LeastIn(b.tree[i]);
    LeastBounded(b, i, b.tree[i]);
    if j > i {
      LaterIsLarger(i, Least(b.tree[i]), j, s);
    }
  }

  lemma UnderRoot(m: Memory, u: Trie, cur: Trie, t: Addr, up: Link, i: nat, sizes: map<Addr, nat>)
    requires Under(m, u, cur, t, up, i, sizes)
    ensures Under(m, cur, cur, t, up, i, sizes) && Members(cur) <= Members(u) && Sizes(cur) <= Sizes(u)
    ensures t == 0 <==> cur.Nil?
  {
  }

  // The search of tmalloc_small: the smallest of all chunks in tree bins.
  method FindLeast(b: Bins, nb: nat, chunksize: map<Addr, nat>) returns (v: Addr, rsize: nat)
    requires b.Valid() && SameSizes(chunksize, b.sizes) && 0 < nb < MIN_LARGE_SIZE && b.treemap != 0
    ensures v != 0 && BestFit(v, rsize, nb, b.sizes)
  {
    hide IsMarked;
    hide Under;
    hide InRange;
    hide Members;
    hide Holds;
    hide InBin;
    hide TreeIndex;
    var i := LowestBit(b.treemap);
    MarkedTree(b, i);
    BinFacts(b, i);
    ghost var u := b.tree[i];
    var t := b.treebins[i];
    UnderStep(b.mem, u, u, t, Slot(i), i, b.sizes);
    v := t;
    LargeIsLarge(b, v);
    rsize := Minus(chunksize[t], nb);
    v, rsize := Leftmost(b, t, v, rsize, nb, chunksize, u, Slot(i), i, BinLo(i), BinBits(i));
    forall x | x in b.sizes && !IsSmall(b.sizes[x]) && b.sizes[x] >= nb ensures v != 0 && b.sizes[v] <= b.sizes[x] {
      LeastOfAll(b, nb, i, v, rsize, x);
    }
  }

  lemma MarkedTree(b: Bins, i: nat)
    requires b.Valid() && IsMarked(b.treemap, i)
    ensures i < NTREEBINS && b.tree[i].Node?
  {
    hide IsMarked;
  }

  lemma LargeIsLarge(b: Bins, v: Addr)
    requires b.Valid() && v in b.sizes
    ensures v > 0 && b.sizes[v] < 0x100_0000_0000 && (!IsSmall(b.sizes[v]) ==> b.sizes[v] >= MIN_LARGE_SIZE)
  {
    InItsBin(b.mem, b.small, b.tree, b.sizes, v);
  }

  lemma LeastOfAll(b: Bins, nb: nat, i: nat, v: Addr, rsize: nat, x: Addr)
    requires b.Valid() && nb < MIN_LARGE_SIZE && i < NTREEBINS && b.tree[i].Node?
    requires forall j: nat :: IsMarked(b.treemap, j) ==> i <= j
    requires v != 0 && Candidate(v, rsize, nb, b.sizes)
    requires (forall s :: s in Sizes(b.tree[i]) ==> s >= nb) ==> nb + rsize <= Least(b.tree[i])
    requires x in b.sizes && !IsSmall(b.sizes[x])
    ensures b.sizes[v] <= b.sizes[x]
  {
    hide IsMarked;
    hide Holds;
    hide TreeIndex;
    hide Members;
    var s := b.sizes[x];
    var j := TreeIndex(s);
    BinFacts(b, j);
    BinFacts(b, i);
    forall r | r in Sizes(b.tree[i]) ensures r >= nb && Least(b.tree[i]) <= r {
      MinSizeMonotone(0, i);
      assert MinSize(0) == 256 by {
        Pow2Of16();
      }
      LeastIsLeast(b.tree[i], BinLo(i), BinBits(i), r);
    }
    LeastIn(b.tree[i]);
    if j > i {
      LaterIsLarger(i, Least(b.tree[i]), j, s);
    }
  }
}
