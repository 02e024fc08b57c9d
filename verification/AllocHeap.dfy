/**
 The heap as a whole: how chunks tile the segments, and what their boundary tags say. The cells are
 the specification; the allocator itself only has the tags.
 */
module AllocHeap {
  import opened AllocLinks
  import opened AllocSizes

  // All memory comes from the lower 2GB of the address space.
  const LIMIT: nat := 0x8000_0000

  // User(req): a block handed out for a request of req bytes. System: a chunk of the allocator itself.
  // Binned, Victim: free, in a bin or the designated victim. Tail: the end of a segment behind its
  // last chunk.
  datatype Kind = User(req: nat) | System | Binned | Victim | Top | Tail

  predicate InUse(k: Kind) {
    k.User? || k.System?
  }

  predicate IsFree(k: Kind) {
    k.Binned? || k.Victim?
  }

  // `prev` is the chunk before it in the same segment, 0 for the first.
  datatype Cell = Cell(size: nat, kind: Kind, prev: Addr, seg: nat)

  type Cells = map<Addr, Cell>

  // A mapped region, its end excluded.
  datatype Range = Range(lo: Addr, hi: Addr)

  type Ranges = map<nat, Range>

  function LeastSize(k: Kind): nat {
    match k
    case Top => 8
    case User(req) => if req + CHUNK_OVERHEAD < MIN_CHUNK_SIZE then MIN_CHUNK_SIZE else req + CHUNK_OVERHEAD
    case _ => MIN_CHUNK_SIZE
  }

  // A chunk of nb bytes serves a request of req bytes.
  predicate RoomFor(nb: nat, req: nat) {
    nb % 8 == 0 && nb >= LeastSize(User(req))
  }

  ghost predicate Fits(p: Addr, c: Cell) {
    p > 0 && p % 8 == 0 && c.size % 8 == 0 && c.size >= LeastSize(c.kind) && p + c.size <= LIMIT
  }

  // Chunks do not overlap, and each but the last of a segment is followed by the next.
  ghost predicate Tiled(cells: Cells) {
    AllFit(cells) && Ordered(cells) && Chained(cells)
  }

  ghost predicate AllFit(cells: Cells) {
    forall p :: p in cells ==> Fits(p, cells[p])
  }

  ghost predicate Ordered(cells: Cells) {
    forall p, q :: p in cells && q in cells && p < q ==> p + cells[p].size <= q
  }

  ghost predicate Chained(cells: Cells) {
    && (forall p {:trigger Follows(cells, p)} :: p in cells && !cells[p].kind.Tail? ==> Follows(cells, p))
    && (forall p {:trigger Preceded(cells, p)} :: p in cells && cells[p].prev != 0 ==> Preceded(cells, p))
  }

  function After(cells: Cells, p: Addr): Addr
    requires p in cells
  {
    p + cells[p].size
  }

  ghost predicate Follows(cells: Cells, p: Addr)
    requires p in cells
  {
    var n := After(cells, p);
    n in cells && cells[n].prev == p && cells[n].seg == cells[p].seg
  }

  ghost predicate Preceded(cells: Cells, n: Addr)
    requires n in cells
  {
    var p := cells[n].prev;
    p in cells && !cells[p].kind.Tail? && After(cells, p) == n
  }

  // No two free chunks are neighbours, nor is a free chunk beside the top; the end of a segment is
  // behind its top or behind a chunk of the allocator.
  ghost predicate Coalesced(cells: Cells) {
    forall p {:trigger Apart(cells, p)} :: p in cells && !cells[p].kind.Tail? ==> Apart(cells, p)
  }

  ghost predicate Apart(cells: Cells, p: Addr)
    requires p in cells
  {
    var n := After(cells, p);
    n in cells ==>
      && (IsFree(cells[p].kind) ==> InUse(cells[n].kind))
      && (cells[n].kind.Tail? ==> cells[p].kind.Top? || cells[p].kind.System?)
      && (cells[p].kind.Top? ==> cells[n].kind.Tail? && cells[n].size == TOP_FOOT_SIZE)
  }

  // A segment is tiled from its start to its end.
  ghost predicate Covering(cells: Cells, ranges: Ranges) {
    && (forall p :: p in cells ==> Placed(p, cells[p], ranges))
    && (forall s :: s in ranges ==> ranges[s].lo in cells && cells[ranges[s].lo].seg == s)
  }

  ghost predicate Placed(p: Addr, c: Cell, ranges: Ranges) {
    && c.seg in ranges && ranges[c.seg].lo <= p && p + c.size <= ranges[c.seg].hi
    && (c.prev == 0 <==> p == ranges[c.seg].lo) && (c.kind.Tail? <==> p + c.size == ranges[c.seg].hi)
    && (c.kind.Tail? ==> c.prev != 0)
  }

  // ------------------------------------------------------------------ boundary tags

  datatype Head = Head(size: nat, cinuse: bool, pinuse: bool)

  // prev_foot: the size of the chunk before, if free.
  datatype Foot = Size(n: nat)

  // The tags say what the cells are.
  ghost predicate Tagged(cells: Cells, head: map<Addr, Head>, foot: map<Addr, Foot>) {
    && (forall p {:trigger HeadAt(cells, head, p)} :: p in cells && !cells[p].kind.Tail? ==> HeadAt(cells, head, p))
    && (forall p {:trigger FootAt(cells, foot, p)} :: p in cells && IsFree(cells[p].kind) ==> FootAt(cells, foot, p))
  }

  ghost predicate PrevInUse(cells: Cells, p: Addr)
    requires p in cells
  {
    cells[p].prev in cells ==> !IsFree(cells[cells[p].prev].kind)
  }

  ghost predicate HeadAt(cells: Cells, head: map<Addr, Head>, p: Addr)
    requires p in cells
  {
    p in head && head[p] == Head(cells[p].size, InUse(cells[p].kind), PrevInUse(cells, p))
  }

  ghost predicate FootAt(cells: Cells, foot: map<Addr, Foot>, p: Addr)
    requires p in cells
  {
    After(cells, p) in foot && foot[After(cells, p)] == Size(cells[p].size)
  }

  // ----------------------------------------------------- the victim, the top, the bins

  // `at` is the only chunk of its kind, with this size; 0 if there is none.
  ghost predicate IsVictim(cells: Cells, dv: Addr, dvsize: nat) {
    && (forall p :: p in cells && cells[p].kind.Victim? ==> p == dv != 0)
    && (dv != 0 ==> dv in cells && cells[dv].kind.Victim? && cells[dv].size == dvsize)
    && (dv == 0 <==> dvsize == 0)
  }

  ghost predicate IsTop(cells: Cells, top: Addr, topsize: nat) {
    && (forall p :: p in cells && cells[p].kind.Top? ==> p == top)
    && top in cells && cells[top].kind.Top? && cells[top].size == topsize
  }

  // Exactly the free chunks other than the victim are in bins, under their own sizes.
  ghost predicate IsBinned(cells: Cells, sizes: map<Addr, nat>) {
    && (forall p :: p in cells && cells[p].kind.Binned? ==> p in sizes && sizes[p] == cells[p].size)
    && (forall p :: p in sizes ==> p in cells && cells[p].kind.Binned?)
  }

  ghost predicate HeapOk(cells: Cells, ranges: Ranges, head: map<Addr, Head>, foot: map<Addr, Foot>) {
    Tiled(cells) && Coalesced(cells) && Covering(cells, ranges) && Tagged(cells, head, foot)
  }

  // ------------------------------------------------------------- changes to the tiling

  // Chunk p gets another kind.
  function WithKind(cells: Cells, p: Addr, k: Kind): Cells
    requires p in cells
  {
    cells[p := cells[p].(kind := k)]
  }

  // Chunk p is cut in two, the first of size nb.
  function Split(cells: Cells, p: Addr, nb: nat, k1: Kind, k2: Kind): Cells
    requires p in cells && nb < cells[p].size && After(cells, p) in cells
  {
    var c, n := cells[p], After(cells, p);
    cells[p := c.(size := nb, kind := k1)]
         [p + nb := Cell(c.size - nb, k2, p, c.seg)]
         [n := cells[n].(prev := p + nb)]
  }

  // Chunk p and the chunk behind it become one.
  function Join(cells: Cells, p: Addr, k: Kind): Cells
    requires p in cells && After(cells, p) in cells && After(cells, After(cells, p)) in cells
  {
    var c, n := cells[p], After(cells, p);
    var m := After(cells, n);
    (cells - {n})[p := c.(size := c.size + cells[n].size, kind := k)][m := cells[m].(prev := p)]
  }

  lemma WithKindTiled(cells: Cells, ranges: Ranges, p: Addr, k: Kind)
    requires Tiled(cells) && Covering(cells, ranges) && p in cells
    requires !k.Tail? && !cells[p].kind.Tail? && cells[p].size >= LeastSize(k)
    ensures Tiled(WithKind(cells, p, k)) && Covering(WithKind(cells, p, k), ranges)
  {
    hide AllFit;
    hide Ordered;
    hide Chained;
    hide Covering;
    WithKindPlaced(cells, ranges, p, k);
    WithKindChained(cells, p, k);
  }

  lemma WithKindChained(cells: Cells, p: Addr, k: Kind)
    requires Chained(cells) && p in cells && !k.Tail? && !cells[p].kind.Tail?
    ensures Chained(WithKind(cells, p, k))
  {
    var cells' := WithKind(cells, p, k);
    forall q | q in cells' && !cells'[q].kind.Tail? ensures Follows(cells', q) {
      assert Follows(cells, q);
    }
    forall q | q in cells' && cells'[q].prev != 0 ensures Preceded(cells', q) {
      assert Preceded(cells, q);
    }
  }

  lemma WithKindPlaced(cells: Cells, ranges: Ranges, p: Addr, k: Kind)
    requires AllFit(cells) && Ordered(cells) && Covering(cells, ranges) && p in cells
    requires !k.Tail? && !cells[p].kind.Tail? && cells[p].size >= LeastSize(k)
    ensures AllFit(WithKind(cells, p, k)) && Ordered(WithKind(cells, p, k)) && Covering(WithKind(cells, p, k), ranges)
  {
    var cells' := WithKind(cells, p, k);
    assert Fits(p, cells[p]) && Placed(p, cells[p], ranges);
    assert Fits(p, cells'[p]) && Placed(p, cells'[p], ranges);
    hide Fits;
    hide Placed;
  }

  lemma SplitOrdered(cells: Cells, p: Addr, nb: nat, k1: Kind, k2: Kind)
    requires AllFit(cells) && Ordered(cells) && p in cells && Follows(cells, p)
    requires nb % 8 == 0 && LeastSize(k1) <= nb && nb + LeastSize(k2) <= cells[p].size
    ensures nb < cells[p].size && p + nb !in cells
    ensures AllFit(Split(cells, p, nb, k1, k2)) && Ordered(Split(cells, p, nb, k1, k2))
  {
    assert Fits(p, cells[p]);
    SplitFits(cells, p, nb, k1, k2);
    hide Fits;
  }

  lemma SplitFits(cells: Cells, p: Addr, nb: nat, k1: Kind, k2: Kind)
    requires AllFit(cells) && p in cells && After(cells, p) in cells
    requires nb % 8 == 0 && LeastSize(k1) <= nb && nb + LeastSize(k2) <= cells[p].size
    ensures nb < cells[p].size && AllFit(Split(cells, p, nb, k1, k2))
  {
    var c := cells[p];
    assert Fits(p, c);
    assert Fits(p, c.(size := nb, kind := k1)) && Fits(p + nb, Cell(c.size - nb, k2, p, c.seg));
  }

  lemma SplitChained(cells: Cells, p: Addr, nb: nat, k1: Kind, k2: Kind)
    requires Tiled(cells) && p in cells && Follows(cells, p) && !cells[p].kind.Tail? && !k1.Tail? && !k2.Tail?
    requires 0 < nb < cells[p].size && p + nb !in cells && p > 0
    ensures Chained(Split(cells, p, nb, k1, k2))
  {
    hide Fits;
    var cells', n, r := Split(cells, p, nb, k1, k2), After(cells, p), p + nb;
    forall q | q in cells' && !cells'[q].kind.Tail? ensures Follows(cells', q) {
      if q != p && q != r {
        assert Follows(cells, q);
      }
    }
    forall q | q in cells' && cells'[q].prev != 0 ensures Preceded(cells', q) {
      if q != n && q != r {
        assert Preceded(cells, q);
      }
    }
  }

  lemma SplitTiled(cells: Cells, ranges: Ranges, p: Addr, nb: nat, k1: Kind, k2: Kind)
    requires Tiled(cells) && Covering(cells, ranges) && p in cells && !cells[p].kind.Tail? && !k1.Tail? && !k2.Tail?
    requires nb % 8 == 0 && LeastSize(k1) <= nb && nb + LeastSize(k2) <= cells[p].size
    ensures Follows(cells, p) && nb < cells[p].size && p + nb !in cells
    ensures Tiled(Split(cells, p, nb, k1, k2)) && Covering(Split(cells, p, nb, k1, k2), ranges)
  {
    assert Follows(cells, p);
    PositiveSizes(cells, p, k1, k2);
    SplitOrdered(cells, p, nb, k1, k2);
    SplitChained(cells, p, nb, k1, k2);
    SplitPlaced(cells, ranges, p, nb, k1, k2);
    hide LeastSize;
    hide Fits;
    hide Split;
  }

  lemma PositiveSizes(cells: Cells, p: Addr, k1: Kind, k2: Kind)
    requires AllFit(cells) && p in cells
    ensures p > 0 && cells[p].size > 0 && LeastSize(k1) > 0 && LeastSize(k2) > 0
  {
    assert Fits(p, cells[p]);
  }

  lemma SplitPlaced(cells: Cells, ranges: Ranges, p: Addr, nb: nat, k1: Kind, k2: Kind)
    requires Ordered(cells) && Covering(cells, ranges) && p in cells && !cells[p].kind.Tail? && !k1.Tail? && !k2.Tail?
    requires p > 0 && Follows(cells, p) && 0 < nb < cells[p].size && p + nb !in cells
    ensures Covering(Split(cells, p, nb, k1, k2), ranges)
  {
    var cells', n, r := Split(cells, p, nb, k1, k2), After(cells, p), p + nb;
    assert Placed(p, cells[p], ranges) && Placed(n, cells[n], ranges);
    forall q | q in cells' ensures Placed(q, cells'[q], ranges) {
      assert q != r ==> Placed(q, cells[q], ranges);
    }
  }

  lemma JoinOrdered(cells: Cells, p: Addr, k: Kind)
    requires AllFit(cells) && Ordered(cells) && p in cells && Follows(cells, p) && Follows(cells, After(cells, p))
    requires cells[p].size + cells[After(cells, p)].size >= LeastSize(k)
    ensures AllFit(Join(cells, p, k)) && Ordered(Join(cells, p, k))
  {
    hide LeastSize;
    var c, n := cells[p], After(cells, p);
    assert Fits(p, c) && Fits(n, cells[n]);
    assert Fits(p, c.(size := c.size + cells[n].size, kind := k));
  }

  lemma JoinChained(cells: Cells, p: Addr, k: Kind)
    requires Tiled(cells) && p in cells && Follows(cells, p) && Follows(cells, After(cells, p))
    requires !cells[p].kind.Tail? && !cells[After(cells, p)].kind.Tail? && !k.Tail? && p > 0
    requires cells[p].size > 0 && cells[After(cells, p)].size > 0
    ensures Chained(Join(cells, p, k))
  {
    var cells', n := Join(cells, p, k), After(cells, p);
    var m := After(cells, n);
    forall q | q in cells' && !cells'[q].kind.Tail? ensures Follows(cells', q) {
      if q != p {
        assert Follows(cells, q);
      }
    }
    forall q | q in cells' && cells'[q].prev != 0 ensures Preceded(cells', q) {
      if q != m {
        assert Preceded(cells, q);
      }
    }
  }

  lemma JoinTiled(cells: Cells, ranges: Ranges, p: Addr, k: Kind)
    requires Tiled(cells) && Covering(cells, ranges) && p in cells && !cells[p].kind.Tail? && !k.Tail?
    requires After(cells, p) in cells && !cells[After(cells, p)].kind.Tail?
    requires cells[p].size + cells[After(cells, p)].size >= LeastSize(k)
    ensures Follows(cells, p) && Follows(cells, After(cells, p))
    ensures Tiled(Join(cells, p, k)) && Covering(Join(cells, p, k), ranges)
  {
    var n := After(cells, p);
    assert Follows(cells, p) && Follows(cells, n);
    assert Fits(p, cells[p]) && Fits(n, cells[n]);
    JoinOrdered(cells, p, k);
    JoinChained(cells, p, k);
    JoinPlaced(cells, ranges, p, k);
  }

  lemma JoinPlaced(cells: Cells, ranges: Ranges, p: Addr, k: Kind)
    requires Ordered(cells) && Covering(cells, ranges) && p in cells && !cells[p].kind.Tail? && !k.Tail?
    requires Follows(cells, p) && Follows(cells, After(cells, p)) && !cells[After(cells, p)].kind.Tail?
    requires p > 0 && cells[p].size > 0 && cells[After(cells, p)].size > 0
    ensures Covering(Join(cells, p, k), ranges)
  {
    hide Tagged;
    var cells', n := Join(cells, p, k), After(cells, p);
    assert Placed(p, cells[p], ranges) && Placed(n, cells[n], ranges);
    assert Placed(After(cells, n), cells[After(cells, n)], ranges);
    forall q | q in cells' ensures Placed(q, cells'[q], ranges) {
      assert Placed(q, cells[q], ranges);
    }
  }

  // ---------------------------------------------------------------- changes to the tags

  // The tags of chunks other than those in xs are as they were.
  ghost predicate SameTags(cells': Cells, head: map<Addr, Head>, head': map<Addr, Head>,
                           foot: map<Addr, Foot>, foot': map<Addr, Foot>, xs: set<Addr>)
  {
    && (forall q :: q in cells' && q !in xs && q in head ==> q in head' && head'[q] == head[q])
    && (forall q {:trigger After(cells', q)} ::
          q in cells' && q !in xs && IsFree(cells'[q].kind) && After(cells', q) in foot ==>
          After(cells', q) in foot' && foot'[After(cells', q)] == foot[After(cells', q)])
  }

  // Outside D, the chunks are as they were, and so are the chunks before them.
  ghost predicate SameBeyond(cells: Cells, cells': Cells, D: set<Addr>) {
    forall q :: q in cells' && q !in D ==>
      q in cells && cells'[q] == cells[q] && SameUse(cells, cells', cells[q].prev)
  }

  ghost predicate SameUse(cells: Cells, cells': Cells, x: Addr) {
    (x in cells <==> x in cells') && (x in cells ==> IsFree(cells'[x].kind) == IsFree(cells[x].kind))
  }

  lemma SameBeyondTwice(a: Cells, b: Cells, c: Cells, D: set<Addr>, E: set<Addr>)
    requires SameBeyond(a, b, D) && SameBeyond(b, c, E)
    ensures SameBeyond(a, c, D + E)
  {
  }

  // Only the chunk behind p has p before it.
  lemma OtherPrev(cells: Cells, p: Addr, q: Addr)
    requires Chained(cells) && p in cells && q in cells && p > 0 && q != After(cells, p)
    ensures cells[q].prev != p
  {
    assert cells[q].prev == p ==> Preceded(cells, q);
  }

  lemma PrevIsChunk(cells: Cells, q: Addr)
    requires Chained(cells) && q in cells && cells[q].prev != 0
    ensures cells[q].prev in cells
  {
    assert Preceded(cells, q);
  }

  lemma WithKindBeyond(cells: Cells, p: Addr, k: Kind)
    requires Tiled(cells) && p in cells
    ensures SameBeyond(cells, WithKind(cells, p, k), {p, After(cells, p)})
  {
    assert Fits(p, cells[p]);
    forall q | q in cells && q != After(cells, p) ensures cells[q].prev != p {
      OtherPrev(cells, p, q);
    }
  }

  lemma SplitBeyond(cells: Cells, p: Addr, nb: nat, k1: Kind, k2: Kind)
    requires Tiled(cells) && p in cells && Follows(cells, p) && 0 < nb < cells[p].size && p + nb !in cells
    ensures SameBeyond(cells, Split(cells, p, nb, k1, k2), {p, p + nb, After(cells, p)})
  {
    assert Fits(p, cells[p]);
    forall q | q in cells && q != After(cells, p) ensures cells[q].prev != p && cells[q].prev != p + nb {
      OtherPrev(cells, p, q);
      if cells[q].prev != 0 {
        PrevIsChunk(cells, q);
      }
    }
  }

  lemma JoinBeyond(cells: Cells, p: Addr, k: Kind)
    requires Tiled(cells) && p in cells && Follows(cells, p) && Follows(cells, After(cells, p))
    ensures var n := After(cells, p);
      SameBeyond(cells, Join(cells, p, k), {p, n, After(cells, n)})
  {
    var n := After(cells, p);
    assert Fits(p, cells[p]) && Fits(n, cells[n]);
    forall q | q in cells && q != n && q != After(cells, n) ensures cells[q].prev != p && cells[q].prev != n {
      OtherPrev(cells, p, q);
      OtherPrev(cells, n, q);
    }
  }

  // The tags are right if they are right for the chunks in D, and the others' are as before.
  lemma Retagged(cells: Cells, cells': Cells, head: map<Addr, Head>, foot: map<Addr, Foot>,
                 head': map<Addr, Head>, foot': map<Addr, Foot>, D: set<Addr>)
    requires Tagged(cells, head, foot) && SameBeyond(cells, cells', D) && SameTags(cells', head, head', foot, foot', D)
    requires forall q :: q in D && q in cells' && !cells'[q].kind.Tail? ==> HeadAt(cells', head', q)
    requires forall q :: q in D && q in cells' && IsFree(cells'[q].kind) ==> FootAt(cells', foot', q)
    ensures Tagged(cells', head', foot')
  {
    forall q | q in cells' && !cells'[q].kind.Tail? ensures HeadAt(cells', head', q) {
      if q !in D {
        assert HeadAt(cells, head, q);
      }
    }
    forall q | q in cells' && IsFree(cells'[q].kind) ensures FootAt(cells', foot', q) {
      if q !in D {
        assert FootAt(cells, foot, q) && After(cells', q) == After(cells, q);
      }
    }
  }

  // Around a free chunk, both neighbours are in use.
  lemma FreeNeighbours(cells: Cells, head: map<Addr, Head>, foot: map<Addr, Foot>, p: Addr)
    requires Tiled(cells) && Coalesced(cells) && Tagged(cells, head, foot) && p in cells && IsFree(cells[p].kind)
    ensures var n := After(cells, p);
      && Follows(cells, p) && n in head && p in head && InUse(cells[n].kind) && PrevInUse(cells, p) && n > p > 0
      && head[p] == Head(cells[p].size, false, true) && head[n] == Head(cells[n].size, true, false)
  {
    var n := After(cells, p);
    assert Follows(cells, p) && Apart(cells, p) && Fits(p, cells[p]);
    assert HeadAt(cells, head, p) && HeadAt(cells, head, n);
    if cells[p].prev in cells {
      assert Fits(cells[p].prev, cells[cells[p].prev]);
      assert Preceded(cells, p);
      assert Apart(cells, cells[p].prev);
    }
  }

  // A free chunk is handed out as a whole.
  lemma UseOk(cells: Cells, ranges: Ranges, head: map<Addr, Head>, foot: map<Addr, Foot>, p: Addr, k: Kind,
              head': map<Addr, Head>, foot': map<Addr, Foot>)
    requires HeapOk(cells, ranges, head, foot) && p in cells && IsFree(cells[p].kind)
    requires InUse(k) && cells[p].size >= LeastSize(k)
    requires SameTags(WithKind(cells, p, k), head, head', foot, foot', {p, After(cells, p)})
    requires var n := After(cells, p);
      && p in head' && head'[p] == Head(cells[p].size, true, true)
      && n in head && n in head' && head'[n] == head[n].(pinuse := true)
    ensures HeapOk(WithKind(cells, p, k), ranges, head', foot')
  {
    hide Tiled, Covering, Coalesced, Tagged, SameTags, SameBeyond;
    WithKindTiled(cells, ranges, p, k);
    UseApart(cells, p, k);
    FreeNeighbours(cells, head, foot, p);
    WithKindBeyond(cells, p, k);
    Retagged(cells, WithKind(cells, p, k), head, foot, head', foot', {p, After(cells, p)});
  }

  lemma UseApart(cells: Cells, p: Addr, k: Kind)
    requires Coalesced(cells) && p in cells && InUse(k) && IsFree(cells[p].kind)
    ensures Coalesced(WithKind(cells, p, k))
  {
    var cells' := WithKind(cells, p, k);
    forall q | q in cells' && !cells'[q].kind.Tail? ensures Apart(cells', q) {
      assert Apart(cells, q);
      assert Apart(cells, p);
    }
  }

  // The first part of a free chunk is handed out, the rest stays free.
  lemma SplitFreeOk(cells: Cells, ranges: Ranges, head: map<Addr, Head>, foot: map<Addr, Foot>,
                    p: Addr, nb: nat, k: Kind, k2: Kind, head': map<Addr, Head>, foot': map<Addr, Foot>)
    requires HeapOk(cells, ranges, head, foot) && p in cells && IsFree(cells[p].kind) && IsFree(k2) && InUse(k)
    requires nb % 8 == 0 && LeastSize(k) <= nb && nb + LeastSize(k2) <= cells[p].size && After(cells, p) in cells
    requires SameTags(Split(cells, p, nb, k, k2), head, head', foot, foot', {p, p + nb, After(cells, p)})
    requires var r, n, rest := p + nb, After(cells, p), cells[p].size - nb;
      && p in head' && head'[p] == Head(nb, true, true) && r in head' && head'[r] == Head(rest, false, true)
      && n in head && n in head' && head'[n] == head[n] && n in foot' && foot'[n] == Size(rest)
    ensures HeapOk(Split(cells, p, nb, k, k2), ranges, head', foot')
  {
    hide LeastSize;
    hide Split;
    hide AllFit;
    hide Ordered;
    hide Chained;
    hide Covering;
    hide Coalesced;
    hide Tagged;
    hide SameTags;
    hide SameBeyond;
    hide HeadAt;
    hide FootAt;
    SplitTiled(cells, ranges, p, nb, k, k2);
    SplitBeyond(cells, p, nb, k, k2);
    SplitFreeApart(cells, p, nb, k, k2);
    SplitFreeHeads(cells, head, foot, p, nb, k, k2, head', foot');
    Retagged(cells, Split(cells, p, nb, k, k2), head, foot, head', foot', {p, p + nb, After(cells, p)});
  }

  lemma SplitFreeHeads(cells: Cells, head: map<Addr, Head>, foot: map<Addr, Foot>,
                       p: Addr, nb: nat, k: Kind, k2: Kind, head': map<Addr, Head>, foot': map<Addr, Foot>)
    requires Tiled(cells) && Coalesced(cells) && Tagged(cells, head, foot)
    requires p in cells && IsFree(cells[p].kind) && IsFree(k2) && InUse(k)
    requires Follows(cells, p) && 0 < nb < cells[p].size && p + nb !in cells
    requires var r, n, rest := p + nb, After(cells, p), cells[p].size - nb;
      && p in head' && head'[p] == Head(nb, true, true) && r in head' && head'[r] == Head(rest, false, true)
      && n in head && n in head' && head'[n] == head[n] && n in foot' && foot'[n] == Size(rest)
    ensures var cells', r, n := Split(cells, p, nb, k, k2), p + nb, After(cells, p);
      && HeadAt(cells', head', p) && HeadAt(cells', head', r) && HeadAt(cells', head', n) && FootAt(cells', foot', r)
      && InUse(cells'[p].kind) && InUse(cells'[n].kind)
  {
    FreeNeighbours(cells, head, foot, p);
    assert cells[p].prev != p && cells[p].prev != p + nb && cells[p].prev != After(cells, p) by {
      if cells[p].prev != 0 {
        assert Preceded(cells, p);
        assert Fits(cells[p].prev, cells[cells[p].prev]);
      }
    }
  }

  lemma SplitFreeApart(cells: Cells, p: Addr, nb: nat, k: Kind, k2: Kind)
    requires Coalesced(cells) && Ordered(cells) && p in cells && InUse(k) && IsFree(cells[p].kind) && IsFree(k2)
    requires Follows(cells, p) && 0 < nb < cells[p].size && p + nb !in cells
    ensures Coalesced(Split(cells, p, nb, k, k2))
  {
    var cells', r, n := Split(cells, p, nb, k, k2), p + nb, After(cells, p);
    assert Apart(cells, p);
    forall q | q in cells' && !cells'[q].kind.Tail? ensures Apart(cells', q) {
      if q in cells && q != p {
        assert Apart(cells, q) && After(cells, q) != r;
      }
    }
  }

  // The first part of the top is handed out.
  lemma SplitTopOk(cells: Cells, ranges: Ranges, head: map<Addr, Head>, foot: map<Addr, Foot>,
                   p: Addr, nb: nat, k: Kind, head': map<Addr, Head>, foot': map<Addr, Foot>)
    requires HeapOk(cells, ranges, head, foot) && p in cells && cells[p].kind.Top? && InUse(k)
    requires nb % 8 == 0 && LeastSize(k) <= nb && nb + LeastSize(Top) <= cells[p].size && After(cells, p) in cells
    requires SameTags(Split(cells, p, nb, k, Top), head, head', foot, foot', {p, p + nb, After(cells, p)})
    requires var r, rest := p + nb, cells[p].size - nb;
      p in head' && head'[p] == Head(nb, true, true) && r in head' && head'[r] == Head(rest, false, true)
    ensures HeapOk(Split(cells, p, nb, k, Top), ranges, head', foot')
  {
    hide LeastSize;
    hide AllFit;
    hide Ordered;
    hide Chained;
    hide Covering;
    hide Coalesced;
    hide Tagged;
    hide SameTags;
    hide SameBeyond;
    hide HeadAt;
    hide FootAt;
    SplitTiled(cells, ranges, p, nb, k, Top);
    SplitBeyond(cells, p, nb, k, Top);
    TopNeighbours(cells, head, foot, p);
    SplitTopApart(cells, p, nb, k);
    SplitTopHeads(cells, head, p, nb, k, head');
    Retagged(cells, Split(cells, p, nb, k, Top), head, foot, head', foot', {p, p + nb, After(cells, p)});
  }

  // Before the top comes a chunk in use, behind it the end of its segment.
  lemma TopNeighbours(cells: Cells, head: map<Addr, Head>, foot: map<Addr, Foot>, p: Addr)
    requires Tiled(cells) && Coalesced(cells) && Tagged(cells, head, foot) && p in cells && cells[p].kind.Top?
    ensures var n := After(cells, p);
      && Follows(cells, p) && cells[n].kind.Tail? && cells[n].size == TOP_FOOT_SIZE && PrevInUse(cells, p) && n > p > 0
      && p in head && head[p] == Head(cells[p].size, false, true)
  {
    var n := After(cells, p);
    assert Follows(cells, p) && Apart(cells, p) && Fits(p, cells[p]);
    assert HeadAt(cells, head, p);
    if cells[p].prev in cells {
      assert Fits(cells[p].prev, cells[cells[p].prev]);
      assert Preceded(cells, p);
      assert Apart(cells, cells[p].prev);
    }
  }

  lemma SplitTopHeads(cells: Cells, head: map<Addr, Head>, p: Addr, nb: nat, k: Kind, head': map<Addr, Head>)
    requires Tiled(cells) && p in cells && PrevInUse(cells, p) && InUse(k)
    requires Follows(cells, p) && cells[After(cells, p)].kind.Tail? && 0 < nb < cells[p].size && p + nb !in cells
    requires var r, rest := p + nb, cells[p].size - nb;
      p in head' && head'[p] == Head(nb, true, true) && r in head' && head'[r] == Head(rest, false, true)
    ensures var cells', r, n := Split(cells, p, nb, k, Top), p + nb, After(cells, p);
      HeadAt(cells', head', p) && HeadAt(cells', head', r) && cells'[n].kind.Tail? && InUse(cells'[p].kind) &&
        cells'[r].kind.Top?
  {
    assert cells[p].prev != p && cells[p].prev != p + nb && cells[p].prev != After(cells, p) by {
      if cells[p].prev != 0 {
        assert Preceded(cells, p);
        assert Fits(cells[p].prev, cells[cells[p].prev]);
      }
    }
  }

  lemma SplitTopApart(cells: Cells, p: Addr, nb: nat, k: Kind)
    requires Coalesced(cells) && Ordered(cells) && p in cells && InUse(k) && cells[p].kind.Top?
    requires Follows(cells, p) && 0 < nb < cells[p].size && p + nb !in cells
    ensures Coalesced(Split(cells, p, nb, k, Top))
  {
    var cells', r, n := Split(cells, p, nb, k, Top), p + nb, After(cells, p);
    assert Apart(cells, p);
    forall q | q in cells' && !cells'[q].kind.Tail? ensures Apart(cells', q) {
      if q in cells && q != p {
        assert Apart(cells, q) && After(cells, q) != r;
      }
    }
  }

  // ------------------------------------------------------------------------ freeing

  // Chunk p becomes free, together with the chunk before it and the chunk behind it where asked for.
  function Freed(cells: Cells, p: Addr, back: bool, fwd: bool, k: Kind): Cells
    requires p in cells && After(cells, p) in cells
    requires fwd ==> After(cells, After(cells, p)) in cells && After(cells, After(cells, p)) > After(cells, p)
    requires back ==> cells[p].prev in cells && After(cells, cells[p].prev) == p && cells[p].prev < p
    requires cells[p].size > 0 && cells[After(cells, p)].size > 0
  {
    var c1 := WithKind(cells, p, k);
    var c2 := if fwd then Join(c1, p, k) else c1;
    if back then Join(c2, cells[p].prev, k) else c2
  }

  // What surrounds a chunk that may be freed.
  lemma FreeableAround(cells: Cells, p: Addr)
    requires Tiled(cells) && Coalesced(cells) && p in cells && cells[p].kind.User?
    ensures Follows(cells, p) && p > 0 && cells[p].size >= MIN_CHUNK_SIZE
    ensures var n := After(cells, p);
      && !cells[n].kind.Tail? && Follows(cells, n) && cells[n].size > 0 && p < n < After(cells, n)
      && (IsFree(cells[n].kind) ==> InUse(cells[After(cells, n)].kind))
      && (cells[n].kind.Top? ==> cells[After(cells, n)].kind.Tail? && cells[After(cells, n)].size == TOP_FOOT_SIZE)
    ensures cells[p].prev != 0 ==> var q := cells[p].prev;
      q in cells && After(cells, q) == p && 0 < q < p && !cells[q].kind.Tail? && Follows(cells, q) &&
        !cells[q].kind.Top?
  {
    var n := After(cells, p);
    assert Follows(cells, p) && Fits(p, cells[p]) && Apart(cells, p);
    assert Fits(n, cells[n]) && Follows(cells, n) && Apart(cells, n);
    if cells[p].prev != 0 {
      var q := cells[p].prev;
      assert Preceded(cells, p);
      assert Fits(q, cells[q]) && Apart(cells, q);
    }
  }

  // Where the chunk that results from freeing p starts, and what comes behind it.
  function FreedStart(cells: Cells, p: Addr, back: bool): Addr
    requires p in cells
  {
    if back then cells[p].prev else p
  }

  function FreedEnd(cells: Cells, p: Addr, fwd: bool): Addr
    requires p in cells && After(cells, p) in cells
  {
    if fwd then After(cells, After(cells, p)) else After(cells, p)
  }

  // p may be freed in this way: chunks that are merged are free or the top, others are in use.
  ghost predicate Freeable(cells: Cells, p: Addr, back: bool, fwd: bool, k: Kind) {
    && p in cells && cells[p].kind.User? && After(cells, p) in cells
    && (back ==> cells[p].prev in cells && IsFree(cells[cells[p].prev].kind))
    && (!back ==> PrevInUse(cells, p))
    && (if fwd then IsFree(k) <==> IsFree(cells[After(cells, p)].kind)
      else IsFree(k) && InUse(cells[After(cells, p)].kind))
    && (IsFree(k) || (k.Top? && cells[After(cells, p)].kind.Top?))
  }

  lemma FreedShape(cells: Cells, p: Addr, back: bool, fwd: bool, k: Kind)
    requires Tiled(cells) && Coalesced(cells) && Freeable(cells, p, back, fwd, k)
    ensures Follows(cells, p) &&
      (fwd ==> Follows(cells, After(cells, p)) && After(cells, After(cells, p)) > After(cells, p))
    ensures back ==> After(cells, cells[p].prev) == p && cells[p].prev < p
    ensures cells[p].size > 0 && cells[After(cells, p)].size > 0
    ensures var cells', start, end := Freed(cells, p, back, fwd, k), FreedStart(cells, p, back),
      FreedEnd(cells, p, fwd);
      && 0 < start <= p < end && start in cells' && end in cells' && start in cells && end in cells
      && cells'[start] == Cell(end - start, k, cells[start].prev, cells[p].seg)
      && cells'[end] == cells[end].(prev := start)
      && (forall x :: x in cells' <==> x in cells && !(back && x == p) && !(fwd && x == After(cells, p)))
      && (forall x :: x in cells' && x != start && x != end ==> cells'[x] == cells[x])
  {
    hide Ordered;
    hide Chained;
    hide Coalesced;
    assert back ==> Fits(cells[p].prev, cells[cells[p].prev]);
    FreeableAround(cells, p);
  }

  // p is marked free and merged with what is behind it.
  function FreedAhead(cells: Cells, p: Addr, fwd: bool, k: Kind): Cells
    requires p in cells && After(cells, p) in cells && cells[p].size > 0
    requires fwd ==> After(cells, After(cells, p)) in cells && After(cells, After(cells, p)) > After(cells, p)
  {
    var c1 := WithKind(cells, p, k);
    if fwd then Join(c1, p, k) else c1
  }

  lemma FreedAheadTiled(cells: Cells, ranges: Ranges, p: Addr, back: bool, fwd: bool, k: Kind)
    requires Tiled(cells) && Coalesced(cells) && Covering(cells, ranges) && Freeable(cells, p, back, fwd, k)
    requires Follows(cells, p) && cells[p].size > 0
    requires fwd ==> Follows(cells, After(cells, p)) && After(cells, After(cells, p)) > After(cells, p)
    ensures var c2, n := FreedAhead(cells, p, fwd, k), After(cells, p);
      Tiled(c2) && Covering(c2, ranges) && SameBeyond(cells, c2, {p, n, if fwd then After(cells, n) else n})
  {
    hide AllFit;
    hide Ordered;
    hide Chained;
    hide Covering;
    hide Coalesced;
    hide SameBeyond;
    hide Join;
    FreeableAround(cells, p);
    var c1, n := WithKind(cells, p, k), After(cells, p);
    WithKindTiled(cells, ranges, p, k);
    WithKindBeyond(cells, p, k);
    if fwd {
      var m := After(cells, n);
      JoinTiled(c1, ranges, p, k);
      JoinBeyond(c1, p, k);
      SameBeyondTwice(cells, c1, Join(c1, p, k), {p, n}, {p, n, m});
      SameBeyondMore(cells, Join(c1, p, k), {p, n} + {p, n, m}, {p, n, m});
    } else {
      SameBeyondMore(cells, c1, {p, n}, {p, n, n});
    }
  }

  lemma FreedBackTiled(cells: Cells, c2: Cells, ranges: Ranges, q: Addr, p: Addr, m: Addr, k: Kind, D: set<Addr>)
    requires Tiled(c2) && Covering(c2, ranges) && SameBeyond(cells, c2, D) && q in c2 && After(c2, q) == p && p in c2
    requires After(c2, p) == m && m in c2 && !c2[q].kind.Tail? && !c2[p].kind.Tail? && c2[q].size >= LeastSize(k) &&
      !k.Tail?
    ensures Tiled(Join(c2, q, k)) && Covering(Join(c2, q, k), ranges)
    ensures SameBeyond(cells, Join(c2, q, k), D + {q, p, m})
  {
    hide AllFit;
    hide Ordered;
    hide Chained;
    hide Covering;
    hide SameBeyond;
    hide LeastSize;
    hide Join;
    JoinTiled(c2, ranges, q, k);
    JoinBeyond(c2, q, k);
    SameBeyondTwice(cells, c2, Join(c2, q, k), D, {q, p, m});
  }

  lemma FreedTiled(cells: Cells, ranges: Ranges, p: Addr, back: bool, fwd: bool, k: Kind)
    requires Tiled(cells) && Coalesced(cells) && Covering(cells, ranges) && Freeable(cells, p, back, fwd, k)
    requires Follows(cells, p) &&
      (fwd ==> Follows(cells, After(cells, p)) && After(cells, After(cells, p)) > After(cells, p))
    requires back ==> After(cells, cells[p].prev) == p && cells[p].prev < p
    requires cells[p].size > 0 && cells[After(cells, p)].size > 0
    ensures Tiled(Freed(cells, p, back, fwd, k)) && Covering(Freed(cells, p, back, fwd, k), ranges)
    ensures var n := After(cells, p);
      SameBeyond(cells, Freed(cells, p, back, fwd, k), {FreedStart(cells, p, back), p, n, FreedEnd(cells, p, fwd)})
  {
    hide Tiled;
    hide Covering;
    hide Coalesced;
    hide SameBeyond;
    var c2, q, n := FreedAhead(cells, p, fwd, k), cells[p].prev, After(cells, p);
    var m := if fwd then After(cells, n) else n;
    FreedAheadTiled(cells, ranges, p, back, fwd, k);
    if back {
      BackSize(cells, q, k);
      FreedBackTiled(cells, c2, ranges, q, p, m, k, {p, n, m});
      SameBeyondMore(cells, Join(c2, q, k), {p, n, m} + {q, p, m}, {q, p, n, m});
    } else {
      SameBeyondMore(cells, c2, {p, n, m}, {p, p, n, m});
    }
  }

  lemma BackSize(cells: Cells, q: Addr, k: Kind)
    requires Tiled(cells) && q in cells && IsFree(cells[q].kind) && (IsFree(k) || k.Top?)
    ensures cells[q].size >= LeastSize(k)
  {
    assert Fits(q, cells[q]);
  }

  lemma SameBeyondMore(cells: Cells, cells': Cells, D: set<Addr>, E: set<Addr>)
    requires SameBeyond(cells, cells', D) && D <= E
    ensures SameBeyond(cells, cells', E)
  {
  }

  // Chunk p was freed, and its neighbours merged with it.
  lemma FreedOk(cells: Cells, ranges: Ranges, head: map<Addr, Head>, foot: map<Addr, Foot>,
                p: Addr, back: bool, fwd: bool, k: Kind, head': map<Addr, Head>, foot': map<Addr, Foot>)
    requires HeapOk(cells, ranges, head, foot) && Freeable(cells, p, back, fwd, k)
    requires fwd ==> After(cells, After(cells, p)) in cells && After(cells, After(cells, p)) > After(cells, p)
    requires back ==> After(cells, cells[p].prev) == p && cells[p].prev < p
    requires cells[p].size > 0 && cells[After(cells, p)].size > 0
    requires var start, end := FreedStart(cells, p, back), FreedEnd(cells, p, fwd);
      && SameTags(Freed(cells, p, back, fwd, k), head, head', foot, foot', {start, end})
      && start in head' && head'[start] == Head(end - start, false, true)
      && (IsFree(k) ==> end in foot' && foot'[end] == Size(end - start))
      && (IsFree(k) ==> end in head && end in head' && head'[end] == head[end].(pinuse := false))
    ensures HeapOk(Freed(cells, p, back, fwd, k), ranges, head', foot')
  {
    FreeableAround(cells, p);
    FreedShape(cells, p, back, fwd, k);
    FreedTiled(cells, ranges, p, back, fwd, k);
    FreedApart(cells, p, back, fwd, k);
    FreedHeads(cells, head, foot, p, back, fwd, k, head', foot');
    FreedTags(cells, head, foot, p, back, fwd, k, head', foot');
    hide Tiled;
    hide Covering;
    hide Coalesced;
    hide SameTags;
    hide SameBeyond;
    hide Freed;
  }

  lemma FreedApart(cells: Cells, p: Addr, back: bool, fwd: bool, k: Kind)
    requires Tiled(cells) && Coalesced(cells) && Freeable(cells, p, back, fwd, k)
    requires Follows(cells, p) &&
      (fwd ==> Follows(cells, After(cells, p)) && After(cells, After(cells, p)) > After(cells, p))
    requires back ==> After(cells, cells[p].prev) == p && cells[p].prev < p
    requires cells[p].size > 0 && cells[After(cells, p)].size > 0
    requires var n := After(cells, p);
      SameBeyond(cells, Freed(cells, p, back, fwd, k), {FreedStart(cells, p, back), p, n, FreedEnd(cells, p, fwd)})
    ensures Coalesced(Freed(cells, p, back, fwd, k))
  {
    FreeableAround(cells, p);
    FreedShape(cells, p, back, fwd, k);
    var cells', start, end := Freed(cells, p, back, fwd, k), FreedStart(cells, p, back), FreedEnd(cells, p, fwd);
    hide Freed;
    hide AllFit;
    hide Chained;
    forall q | q in cells' && !cells'[q].kind.Tail? ensures Apart(cells', q) {
      if q != start {
        if After(cells, q) == start {
          BeforeStart(cells, p, back, fwd, k, q);
        }
        ApartKept(cells, cells', p, start, end, q, k);
      }
    }
  }

  // The chunk before the one that was freed is in use.
  lemma BeforeStart(cells: Cells, p: Addr, back: bool, fwd: bool, k: Kind, q: Addr)
    requires Tiled(cells) && Coalesced(cells) && Freeable(cells, p, back, fwd, k)
    requires q in cells && !cells[q].kind.Tail? && After(cells, q) == FreedStart(cells, p, back)
    ensures InUse(cells[q].kind)
  {
    FreeableAround(cells, p);
    assert Follows(cells, q) && Apart(cells, q);
  }

  // A chunk other than the freed one has the neighbour it had, or one in its place that is as good.
  lemma ApartKept(cells: Cells, cells': Cells, p: Addr, start: Addr, end: Addr, q: Addr, k: Kind)
    requires Ordered(cells) && Coalesced(cells) && q in cells && q in cells' && q != start && !cells[q].kind.Tail?
    requires start in cells && end in cells && start in cells' && end in cells' && start < end
    requires cells'[q].kind == cells[q].kind && cells'[q].size == cells[q].size
    requires After(cells, q) in cells' ==> After(cells, q) in cells
    requires After(cells, q) in cells' && After(cells, q) != start ==>
      cells'[After(cells, q)].kind == cells[After(cells, q)].kind &&
        cells'[After(cells, q)].size == cells[After(cells, q)].size
    requires After(cells, q) == start ==> !IsFree(cells[q].kind) && !cells[q].kind.Top? && !cells'[start].kind.Tail?
    ensures Apart(cells', q)
  {
    assert Apart(cells, q);
  }

  lemma FreedHeads(cells: Cells, head: map<Addr, Head>, foot: map<Addr, Foot>,
                   p: Addr, back: bool, fwd: bool, k: Kind, head': map<Addr, Head>, foot': map<Addr, Foot>)
    requires Tiled(cells) && Coalesced(cells) && Tagged(cells, head, foot) && Freeable(cells, p, back, fwd, k)
    requires Follows(cells, p) &&
      (fwd ==> Follows(cells, After(cells, p)) && After(cells, After(cells, p)) > After(cells, p))
    requires back ==> After(cells, cells[p].prev) == p && cells[p].prev < p
    requires cells[p].size > 0 && cells[After(cells, p)].size > 0
    requires var start, end := FreedStart(cells, p, back), FreedEnd(cells, p, fwd);
      && start in head' && head'[start] == Head(end - start, false, true)
      && (IsFree(k) ==> end in foot' && foot'[end] == Size(end - start))
      && (IsFree(k) ==> end in head && end in head' && head'[end] == head[end].(pinuse := false))
    ensures var cells', start, end := Freed(cells, p, back, fwd, k), FreedStart(cells, p, back),
      FreedEnd(cells, p, fwd);
      && start in cells' && end in cells' && HeadAt(cells', head', start) &&
        (IsFree(k) ==> FootAt(cells', foot', start))
      && (!cells'[end].kind.Tail? ==> HeadAt(cells', head', end)) && !IsFree(cells'[end].kind)
  {
    FreeableAround(cells, p);
    FreedShape(cells, p, back, fwd, k);
    var start, end := FreedStart(cells, p, back), FreedEnd(cells, p, fwd);
    if back {
      FreeNeighbours(cells, head, foot, cells[p].prev);
    }
    if cells[start].prev != 0 {
      assert Preceded(cells, start);
      assert Fits(cells[start].prev, cells[cells[start].prev]);
    }
    hide Freed;
    assert !cells[end].kind.Tail? ==> HeadAt(cells, head, end);
  }

  lemma FreedTags(cells: Cells, head: map<Addr, Head>, foot: map<Addr, Foot>,
                  p: Addr, back: bool, fwd: bool, k: Kind, head': map<Addr, Head>, foot': map<Addr, Foot>)
    requires Tiled(cells) && Coalesced(cells) && Tagged(cells, head, foot) && Freeable(cells, p, back, fwd, k)
    requires Follows(cells, p) &&
      (fwd ==> Follows(cells, After(cells, p)) && After(cells, After(cells, p)) > After(cells, p))
    requires back ==> After(cells, cells[p].prev) == p && cells[p].prev < p
    requires cells[p].size > 0 && cells[After(cells, p)].size > 0
    requires var cells', start, end := Freed(cells, p, back, fwd, k), FreedStart(cells, p, back),
      FreedEnd(cells, p, fwd);
      && SameTags(cells', head, head', foot, foot', {start, end})
      && start in cells' && end in cells' && HeadAt(cells', head', start) &&
        (IsFree(k) ==> FootAt(cells', foot', start))
      && (!cells'[end].kind.Tail? ==> HeadAt(cells', head', end)) && !IsFree(cells'[end].kind)
    requires var n := After(cells, p);
      SameBeyond(cells, Freed(cells, p, back, fwd, k), {FreedStart(cells, p, back), p, n, FreedEnd(cells, p, fwd)})
    ensures Tagged(Freed(cells, p, back, fwd, k), head', foot')
  {
    FreedShape(cells, p, back, fwd, k);
    FreedBeyond(cells, p, back, fwd, k);
    var cells', start, end := Freed(cells, p, back, fwd, k), FreedStart(cells, p, back), FreedEnd(cells, p, fwd);
    hide Freed;
    hide Tiled;
    hide Tagged;
    hide SameTags;
    hide SameBeyond;
    hide HeadAt;
    hide FootAt;
    Retagged(cells, cells', head, foot, head', foot', {start, end});
  }

  // Of the chunks that remain, only the new one and the one behind it differ.
  lemma FreedBeyond(cells: Cells, p: Addr, back: bool, fwd: bool, k: Kind)
    requires Tiled(cells) && Coalesced(cells) && Freeable(cells, p, back, fwd, k)
    requires Follows(cells, p) &&
      (fwd ==> Follows(cells, After(cells, p)) && After(cells, After(cells, p)) > After(cells, p))
    requires back ==> After(cells, cells[p].prev) == p && cells[p].prev < p
    requires cells[p].size > 0 && cells[After(cells, p)].size > 0
    requires var n := After(cells, p);
      SameBeyond(cells, Freed(cells, p, back, fwd, k), {FreedStart(cells, p, back), p, n, FreedEnd(cells, p, fwd)})
    ensures SameBeyond(cells, Freed(cells, p, back, fwd, k), {FreedStart(cells, p, back), FreedEnd(cells, p, fwd)})
  {
    FreeableAround(cells, p);
    FreedShape(cells, p, back, fwd, k);
  }

  // ------------------------------------------------------------------ other changes

  // The victim goes to a bin.
  lemma RetireOk(cells: Cells, ranges: Ranges, head: map<Addr, Head>, foot: map<Addr, Foot>, p: Addr, k: Kind)
    requires HeapOk(cells, ranges, head, foot) && p in cells && IsFree(cells[p].kind) && IsFree(k)
    ensures HeapOk(WithKind(cells, p, k), ranges, head, foot)
  {
    FreeFits(cells, p, k);
    WithKindTiled(cells, ranges, p, k);
    RetireApart(cells, p, k);
    RetireTags(cells, head, foot, p, k);
    hide Tiled;
    hide Covering;
    hide Coalesced;
    hide Tagged;
    hide WithKind;
  }

  lemma RetireApart(cells: Cells, p: Addr, k: Kind)
    requires Coalesced(cells) && p in cells && IsFree(cells[p].kind) && IsFree(k)
    ensures Coalesced(WithKind(cells, p, k))
  {
    var cells' := WithKind(cells, p, k);
    forall q | q in cells' && !cells'[q].kind.Tail? ensures Apart(cells', q) {
      assert Apart(cells, q);
    }
  }

  lemma FreeFits(cells: Cells, p: Addr, k: Kind)
    requires Tiled(cells) && p in cells && IsFree(cells[p].kind) && IsFree(k)
    ensures cells[p].size >= LeastSize(k)
  {
    assert Fits(p, cells[p]);
  }

  lemma RetireTags(cells: Cells, head: map<Addr, Head>, foot: map<Addr, Foot>, p: Addr, k: Kind)
    requires Tagged(cells, head, foot) && p in cells && IsFree(cells[p].kind) && IsFree(k)
    ensures Tagged(WithKind(cells, p, k), head, foot)
  {
    var cells' := WithKind(cells, p, k);
    forall q | q in cells' && !cells'[q].kind.Tail? ensures HeadAt(cells', head, q) {
      assert HeadAt(cells, head, q);
    }
    forall q | q in cells' && IsFree(cells'[q].kind) ensures FootAt(cells', foot, q) {
      assert FootAt(cells, foot, q);
    }
  }

  // A chunk in use is cut into two chunks in use.
  lemma SplitUsedOk(cells: Cells, ranges: Ranges, head: map<Addr, Head>, foot: map<Addr, Foot>,
                    p: Addr, nb: nat, k1: Kind, k2: Kind, head': map<Addr, Head>, foot': map<Addr, Foot>)
    requires HeapOk(cells, ranges, head, foot) && p in cells && cells[p].kind.User? && k1.User? && k2.User?
    requires nb % 8 == 0 && LeastSize(k1) <= nb && nb + LeastSize(k2) <= cells[p].size && After(cells, p) in cells
    requires SameTags(Split(cells, p, nb, k1, k2), head, head', foot, foot', {p, p + nb})
    requires var r, rest := p + nb, cells[p].size - nb;
      && p in head && p in head' && head'[p] == Head(nb, true, head[p].pinuse)
      && r in head' && head'[r] == Head(rest, true, true)
    ensures HeapOk(Split(cells, p, nb, k1, k2), ranges, head', foot')
  {
    SplitTiled(cells, ranges, p, nb, k1, k2);
    SplitBeyond(cells, p, nb, k1, k2);
    FreeableAround(cells, p);
    SplitUsedApart(cells, p, nb, k1, k2);
    SplitUsedTags(cells, head, foot, p, nb, k1, k2, head', foot');
    hide LeastSize;
    hide Split;
    hide Tiled;
    hide Covering;
    hide Coalesced;
    hide Tagged;
    hide SameTags;
    hide SameBeyond;
  }

  lemma SplitUsedApart(cells: Cells, p: Addr, nb: nat, k1: Kind, k2: Kind)
    requires Coalesced(cells) && Ordered(cells) && p in cells && k1.User? && k2.User? && cells[p].kind.User?
    requires Follows(cells, p) && 0 < nb < cells[p].size && p + nb !in cells && !cells[After(cells, p)].kind.Tail?
    ensures Coalesced(Split(cells, p, nb, k1, k2))
  {
    var cells', r, n := Split(cells, p, nb, k1, k2), p + nb, After(cells, p);
    forall q | q in cells' && !cells'[q].kind.Tail? ensures Apart(cells', q) {
      if q in cells && q != p {
        assert Apart(cells, q) && After(cells, q) != r;
      }
    }
  }

  lemma SplitUsedTags(cells: Cells, head: map<Addr, Head>, foot: map<Addr, Foot>,
                      p: Addr, nb: nat, k1: Kind, k2: Kind, head': map<Addr, Head>, foot': map<Addr, Foot>)
    requires Tiled(cells) && Tagged(cells, head, foot) && p in cells && k1.User? && k2.User? && cells[p].kind.User?
    requires Follows(cells, p) && 0 < nb < cells[p].size && p + nb !in cells && p > 0
    requires SameTags(Split(cells, p, nb, k1, k2), head, head', foot, foot', {p, p + nb})
    requires SameBeyond(cells, Split(cells, p, nb, k1, k2), {p, p + nb, After(cells, p)})
    requires var r, rest := p + nb, cells[p].size - nb;
      && p in head && p in head' && head'[p] == Head(nb, true, head[p].pinuse)
      && r in head' && head'[r] == Head(rest, true, true)
    ensures Tagged(Split(cells, p, nb, k1, k2), head', foot')
  {
    var cells', r, n := Split(cells, p, nb, k1, k2), p + nb, After(cells, p);
    assert HeadAt(cells, head, p);
    if cells[p].prev != 0 {
      assert Preceded(cells, p);
      assert Fits(cells[p].prev, cells[cells[p].prev]);
    }
    hide AllFit;
    hide Ordered;
    forall q | q in cells' && !cells'[q].kind.Tail? ensures HeadAt(cells', head', q) {
      if q != p && q != r {
        assert HeadAt(cells, head, q);
      }
    }
    forall q | q in cells' && IsFree(cells'[q].kind) ensures FootAt(cells', foot', q) {
      assert FootAt(cells, foot, q) && After(cells', q) == After(cells, q);
    }
  }

  // ------------------------------------------------------------------ blocks of the user

  datatype Block = Block(req: nat, size: nat)

  // The chunks handed out, with the size asked for and the size of the chunk.
  ghost function Blocks(cells: Cells): map<Addr, Block> {
    map p | p in cells && cells[p].kind.User? :: Block(cells[p].kind.req, cells[p].size)
  }

  lemma FreedBlocks(cells: Cells, p: Addr, back: bool, fwd: bool, k: Kind)
    requires Tiled(cells) && Coalesced(cells) && Freeable(cells, p, back, fwd, k)
    requires fwd ==> After(cells, After(cells, p)) in cells && After(cells, After(cells, p)) > After(cells, p)
    requires back ==> After(cells, cells[p].prev) == p && cells[p].prev < p
    requires cells[p].size > 0 && cells[After(cells, p)].size > 0
    ensures Blocks(Freed(cells, p, back, fwd, k)) == Blocks(cells) - {p}
  {
    hide AllFit;
    hide Ordered;
    hide Chained;
    hide Coalesced;
    hide Freed;
    FreedShape(cells, p, back, fwd, k);
    var c, start, end := Freed(cells, p, back, fwd, k), FreedStart(cells, p, back), FreedEnd(cells, p, fwd);
    forall x ensures x in Blocks(c) <==> x in Blocks(cells) && x != p {
      assert x == start || x == end || (x in c ==> c[x] == cells[x]);
    }
  }

  // The heap after lj_alloc_create: the allocator's own chunk, and the top.
  function Created(base: Addr, size: nat, msize: nat): Cells
    requires msize + TOP_FOOT_SIZE < size
  {
    map[base := Cell(msize, System, 0, 0),
        base + msize := Cell(size - msize - TOP_FOOT_SIZE, Top, base, 0),
        base + size - TOP_FOOT_SIZE := Cell(TOP_FOOT_SIZE, Tail, base + msize, 0)]
  }

  lemma CreatedOk(base: Addr, size: nat, msize: nat, head: map<Addr, Head>, foot: map<Addr, Foot>)
    requires base > 0 && base % 8 == 0 && size % 8 == 0 && msize % 8 == 0 && msize >= MIN_CHUNK_SIZE
    requires msize + TOP_FOOT_SIZE + 8 <= size && base + size <= LIMIT
    requires base in head && head[base] == Head(msize, true, true)
    requires base + msize in head && head[base + msize] == Head(size - msize - TOP_FOOT_SIZE, false, true)
    ensures HeapOk(Created(base, size, msize), map[0 := Range(base, base + size)], head, foot)
    ensures Blocks(Created(base, size, msize)) == map[]
    ensures IsTop(Created(base, size, msize), base + msize, size - msize - TOP_FOOT_SIZE)
    ensures IsVictim(Created(base, size, msize), 0, 0) && IsBinned(Created(base, size, msize), map[])
  {
    hide AllFit, Ordered, Chained, Coalesced, Covering;
    CreatedTiled(base, size, msize);
    CreatedTags(base, size, msize, head, foot);
  }

  lemma CreatedTiled(base: Addr, size: nat, msize: nat)
    requires base > 0 && base % 8 == 0 && size % 8 == 0 && msize % 8 == 0 && msize >= MIN_CHUNK_SIZE
    requires msize + TOP_FOOT_SIZE + 8 <= size && base + size <= LIMIT
    ensures Tiled(Created(base, size, msize))
  {
    var cells := Created(base, size, msize);
    assert Fits(base, cells[base]) && Fits(base + msize, cells[base + msize]);
    assert Fits(base + size - TOP_FOOT_SIZE, cells[base + size - TOP_FOOT_SIZE]);
    hide Fits;
  }

  lemma CreatedTags(base: Addr, size: nat, msize: nat, head: map<Addr, Head>, foot: map<Addr, Foot>)
    requires base > 0 && msize > 0 && msize + TOP_FOOT_SIZE < size
    requires base in head && head[base] == Head(msize, true, true)
    requires base + msize in head && head[base + msize] == Head(size - msize - TOP_FOOT_SIZE, false, true)
    ensures var cells := Created(base, size, msize);
      Coalesced(cells) && Covering(cells, map[0 := Range(base, base + size)]) && Tagged(cells, head, foot)
  {
  }

  // ------------------------------------------- what the allocator keeps, as chunks change

  lemma BlocksWithKind(cells: Cells, p: Addr, k: Kind)
    requires p in cells
    ensures Blocks(WithKind(cells, p, k)) ==
      if k.User? then Blocks(cells)[p := Block(k.req, cells[p].size)] else Blocks(cells) - {p}
  {
  }

  lemma BlocksSplit(cells: Cells, p: Addr, nb: nat, k1: Kind, k2: Kind)
    requires p in cells && 0 < nb < cells[p].size && After(cells, p) in cells && p + nb !in cells && !k2.User?
    ensures Blocks(Split(cells, p, nb, k1, k2)) ==
      if k1.User? then Blocks(cells)[p := Block(k1.req, nb)] else Blocks(cells) - {p}
  {
  }

  // A binned chunk is used.
  lemma KeptUse(cells: Cells, sizes: map<Addr, nat>, dv: Addr, dvsize: nat, top: Addr, topsize: nat, p: Addr, k: Kind)
    requires IsBinned(cells, sizes) && IsVictim(cells, dv, dvsize) && IsTop(cells, top, topsize)
    requires p in cells && cells[p].kind.Binned? && InUse(k)
    ensures var c := WithKind(cells, p, k);
      IsBinned(c, sizes - {p}) && IsVictim(c, dv, dvsize) && IsTop(c, top, topsize)
  {
  }

  // The victim is used.
  lemma KeptUseVictim(cells: Cells, sizes: map<Addr, nat>, dv: Addr, dvsize: nat, top: Addr, topsize: nat, k: Kind)
    requires IsBinned(cells, sizes) && IsVictim(cells, dv, dvsize) && IsTop(cells, top, topsize)
    requires dv in cells && cells[dv].kind.Victim? && InUse(k)
    ensures var c := WithKind(cells, dv, k);
      IsBinned(c, sizes) && IsVictim(c, 0, 0) && IsTop(c, top, topsize)
  {
  }

  // The victim becomes a binned chunk.
  lemma KeptRetire(cells: Cells, sizes: map<Addr, nat>, dv: Addr, dvsize: nat, top: Addr, topsize: nat)
    requires IsBinned(cells, sizes) && IsVictim(cells, dv, dvsize) && IsTop(cells, top, topsize)
    requires dv in cells && cells[dv].kind.Victim?
    ensures var c := WithKind(cells, dv, Binned);
      IsBinned(c, sizes[dv := dvsize]) && IsVictim(c, 0, 0) && IsTop(c, top, topsize)
  {
  }

  // A free chunk is split; the rest becomes the victim, or goes to a bin.
  lemma KeptSplit(cells: Cells, sizes: map<Addr, nat>, dv: Addr, dvsize: nat, top: Addr, topsize: nat,
                  p: Addr, nb: nat, k: Kind, k2: Kind)
    requires IsBinned(cells, sizes) && IsVictim(cells, dv, dvsize) && IsTop(cells, top, topsize)
    requires p in cells && IsFree(cells[p].kind) && InUse(k) && IsFree(k2) && After(cells, p) in cells
    requires 0 < nb < cells[p].size && p > 0 && p + nb !in cells && (k2.Victim? ==> dv == 0 || p == dv)
    ensures var c, r, rest := Split(cells, p, nb, k, k2), p + nb, cells[p].size - nb;
      && IsBinned(c, if k2.Binned? then (sizes - {p})[r := rest] else sizes - {p})
      && (if k2.Victim? then IsVictim(c, r, rest)
        else IsVictim(c, if p == dv then 0 else dv, if p == dv then 0 else dvsize))
      && IsTop(c, top, topsize)
  {
  }

  lemma KeptSplitTop(cells: Cells, sizes: map<Addr, nat>, dv: Addr, dvsize: nat, top: Addr, topsize: nat, nb: nat,
                     k: Kind)
    requires IsBinned(cells, sizes) && IsVictim(cells, dv, dvsize) && IsTop(cells, top, topsize)
    requires InUse(k) && After(cells, top) in cells && 0 < nb < topsize && top + nb !in cells
    ensures var c := Split(cells, top, nb, k, Top);
      IsBinned(c, sizes) && IsVictim(c, dv, dvsize) && IsTop(c, top + nb, topsize - nb)
  {
  }

  // What the allocator keeps after p was freed: merged chunks leave the bins, the result goes to a
  // bin, or is the victim, or the top.
  lemma KeptFreed(cells: Cells, sizes: map<Addr, nat>, dv: Addr, dvsize: nat, top: Addr, topsize: nat,
                  p: Addr, back: bool, fwd: bool, k: Kind)
    requires Tiled(cells) && Coalesced(cells) && Freeable(cells, p, back, fwd, k)
    requires IsBinned(cells, sizes) && IsVictim(cells, dv, dvsize) && IsTop(cells, top, topsize)
    requires fwd ==> After(cells, After(cells, p)) in cells && After(cells, After(cells, p)) > After(cells, p)
    requires back ==> After(cells, cells[p].prev) == p && cells[p].prev < p
    requires cells[p].size > 0 && cells[After(cells, p)].size > 0
    requires k.Victim? ==> (back && cells[p].prev == dv) || (fwd && After(cells, p) == dv)
    requires k.Binned? ==> !(back && cells[p].prev == dv) && !(fwd && After(cells, p) == dv)
    ensures var c, start, end := Freed(cells, p, back, fwd, k), FreedStart(cells, p, back), FreedEnd(cells, p, fwd);
      && IsBinned(c, if k.Binned? then (sizes - {start, After(cells, p)})[start := end - start]
        else sizes - {start, After(cells, p)})
      && (if k.Victim? then IsVictim(c, start, end - start)
          else if back && cells[p].prev == dv then IsVictim(c, 0, 0)
          else IsVictim(c, dv, dvsize))
      && (if k.Top? then IsTop(c, start, end - start) else IsTop(c, top, topsize))
      && start in cells && cells[start].seg == cells[p].seg && (k.Top? ==> cells[top].seg == cells[p].seg)
      && (forall x :: x in c && x in cells ==> c[x].seg == cells[x].seg)
  {
    hide Tiled;
    hide Coalesced;
    hide Freed;
    hide IsBinned;
    hide IsVictim;
    FreedShape(cells, p, back, fwd, k);
    FreeableAround(cells, p);
    var c, start, end := Freed(cells, p, back, fwd, k), FreedStart(cells, p, back), FreedEnd(cells, p, fwd);
    KeptFreedBins(cells, c, sizes, p, back, fwd, start, end, k);
    KeptFreedOthers(cells, c, dv, dvsize, top, topsize, p, back, fwd, start, end, k);
  }

  // c is cells with p freed, and merged with the chunk before it and the chunk behind it.
  ghost predicate FreedTo(cells: Cells, c: Cells, p: Addr, back: bool, fwd: bool, start: Addr, end: Addr, k: Kind) {
    && p in cells && cells[p].kind.User? && After(cells, p) in cells
    && start in cells && end in cells && start in c && end in c && start < end
    && start == (if back then cells[p].prev else p) && (!fwd ==> end == After(cells, p)) && p < After(cells, p) <= end
    && (fwd ==> end != After(cells, p)) && (back ==> IsFree(cells[start].kind) && start != p)
    && c[start] == Cell(end - start, k, cells[start].prev, cells[p].seg) && c[end] == cells[end].(prev := start)
    && (forall x :: x in c <==> x in cells && !(back && x == p) && !(fwd && x == After(cells, p)))
    && (forall x :: x in c && x != start && x != end ==> c[x] == cells[x])
  }

  lemma KeptFreedBins(cells: Cells, c: Cells, sizes: map<Addr, nat>, p: Addr, back: bool, fwd: bool,
                      start: Addr, end: Addr, k: Kind)
    requires FreedTo(cells, c, p, back, fwd, start, end, k) && IsBinned(cells, sizes)
    requires !fwd ==> InUse(cells[After(cells, p)].kind)
    ensures IsBinned(c, if k.Binned? then (sizes - {start, After(cells, p)})[start := end - start]
      else sizes - {start, After(cells, p)})
  {
  }

  lemma KeptFreedOthers(cells: Cells, c: Cells, dv: Addr, dvsize: nat, top: Addr, topsize: nat, p: Addr,
                        back: bool, fwd: bool, start: Addr, end: Addr, k: Kind)
    requires FreedTo(cells, c, p, back, fwd, start, end, k) && start > 0
    requires IsVictim(cells, dv, dvsize) && IsTop(cells, top, topsize)
    requires if fwd then IsFree(k) <==> IsFree(cells[After(cells, p)].kind)
      else IsFree(k) && InUse(cells[After(cells, p)].kind)
    requires IsFree(k) || (k.Top? && cells[After(cells, p)].kind.Top?)
    requires k.Victim? ==> (back && cells[p].prev == dv) || (fwd && After(cells, p) == dv)
    requires k.Binned? ==> !(back && cells[p].prev == dv) && !(fwd && After(cells, p) == dv)
    ensures if k.Victim? then IsVictim(c, start, end - start)
            else if back && cells[p].prev == dv then IsVictim(c, 0, 0)
            else IsVictim(c, dv, dvsize)
    ensures if k.Top? then IsTop(c, start, end - start) else IsTop(c, top, topsize)
  {
  }
}
