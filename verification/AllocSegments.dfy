/** Segments of the heap that are mapped, grow, shrink and are given back. */
module AllocSegments {
  import opened AllocHeap
  import opened AllocLinks
  import opened AllocSizes

  // No chunk lies in this region.
  ghost predicate Unused(cells: Cells, lo: Addr, hi: Addr) {
    forall q :: q in cells ==> q + cells[q].size <= lo || q >= hi
  }

  ghost predicate Positive(cells: Cells) {
    forall q :: q in cells ==> q > 0 && cells[q].size > 0
  }

  lemma FitPositive(cells: Cells)
    requires AllFit(cells)
    ensures Positive(cells)
  {
    forall q | q in cells ensures q > 0 && cells[q].size > 0 {
      assert Fits(q, cells[q]);
    }
  }

  // ------------------------------------------------- the segment of the top grows or shrinks

  function TailMoved(cells: Cells, top: Addr, size: nat): Cells
    requires top in cells && After(cells, top) in cells
  {
    var c := cells[top];
    (cells - {After(cells, top)})[top := c.(size := size)][top + size := Cell(TOP_FOOT_SIZE, Tail, top, c.seg)]
  }

  function EndMoved(cells: Cells, ranges: Ranges, top: Addr, size: nat): Ranges
    requires top in cells && cells[top].seg in ranges
  {
    var s := cells[top].seg;
    ranges[s := ranges[s].(hi := top + size + TOP_FOOT_SIZE)]
  }

  // The end of the top's segment can be moved.
  ghost predicate CanMove(cells: Cells, top: Addr, size: nat) {
    && top in cells && cells[top].kind.Top? && size % 8 == 0 && size >= 8 && top + size + TOP_FOOT_SIZE <= LIMIT
    && forall q :: q in cells && q > top && q != After(cells, top) ==> q >= top + size + TOP_FOOT_SIZE
  }

  lemma TailMovedOk(cells: Cells, ranges: Ranges, head: map<Addr, Head>, foot: map<Addr, Foot>, top: Addr, size: nat,
                    head': map<Addr, Head>)
    requires HeapOk(cells, ranges, head, foot) && CanMove(cells, top, size)
    requires top in head' && head'[top] == Head(size, false, true)
    requires forall q :: q in cells && q != top && q != After(cells, top) && q in head ==>
      q in head' && head'[q] == head[q]
    ensures After(cells, top) in cells && cells[top].seg in ranges
    ensures HeapOk(TailMoved(cells, top, size), EndMoved(cells, ranges, top, size), head', foot)
  {
    TopNeighbours(cells, head, foot, top);
    assert Placed(top, cells[top], ranges);
    TailMovedTiled(cells, top, size);
    TailMovedCovers(cells, ranges, top, size);
    TailMovedApart(cells, top, size);
    TailMovedTags(cells, head, foot, top, size, head');
    hide Tiled;
    hide Covering;
    hide Coalesced;
    hide Tagged;
    hide CanMove;
  }

  lemma TailMovedTiled(cells: Cells, top: Addr, size: nat)
    requires Tiled(cells) && CanMove(cells, top, size) && Follows(cells, top) && cells[After(cells, top)].kind.Tail?
    ensures Tiled(TailMoved(cells, top, size))
  {
    var cells', t := TailMoved(cells, top, size), After(cells, top);
    assert Fits(top, cells[top]);
    assert Fits(top, cells'[top]) && Fits(top + size, cells'[top + size]);
    hide Fits;
    forall q | q in cells' && !cells'[q].kind.Tail? ensures Follows(cells', q) {
      if q != top {
        assert Follows(cells, q);
      }
    }
    forall q | q in cells' && cells'[q].prev != 0 ensures Preceded(cells', q) {
      if q != top + size {
        assert Preceded(cells, q);
      }
    }
  }

  lemma TailMovedCovers(cells: Cells, ranges: Ranges, top: Addr, size: nat)
    requires Tiled(cells) && Covering(cells, ranges) && CanMove(cells, top, size)
    requires Follows(cells, top) && cells[After(cells, top)].kind.Tail? && cells[top].seg in ranges
    ensures Covering(TailMoved(cells, top, size), EndMoved(cells, ranges, top, size))
  {
    var cells', ranges', t := TailMoved(cells, top, size), EndMoved(cells, ranges, top, size), After(cells, top);
    assert Placed(top, cells[top], ranges) && Placed(t, cells[t], ranges) && Fits(top, cells[top]);
    forall q | q in cells' ensures Placed(q, cells'[q], ranges') {
      if q != top && q != top + size {
        assert Placed(q, cells[q], ranges);
        assert q + cells[q].size <= top || q >= t + cells[t].size;
      }
    }
  }

  lemma TailMovedApart(cells: Cells, top: Addr, size: nat)
    requires Tiled(cells) && Coalesced(cells) && CanMove(cells, top, size) && Follows(cells, top)
    requires cells[After(cells, top)].kind.Tail?
    ensures Coalesced(TailMoved(cells, top, size))
  {
    var cells', t := TailMoved(cells, top, size), After(cells, top);
    forall q | q in cells' && !cells'[q].kind.Tail? ensures Apart(cells', q) {
      if q != top {
        assert Apart(cells, q) && Follows(cells, q);
      }
    }
  }

  lemma TailMovedTags(cells: Cells, head: map<Addr, Head>, foot: map<Addr, Foot>, top: Addr, size: nat,
                      head': map<Addr, Head>)
    requires Tiled(cells) && Tagged(cells, head, foot) && CanMove(cells, top, size) && PrevInUse(cells, top)
    requires Follows(cells, top) && cells[After(cells, top)].kind.Tail?
    requires top in head' && head'[top] == Head(size, false, true)
    requires forall q :: q in cells && q != top && q != After(cells, top) && q in head ==>
      q in head' && head'[q] == head[q]
    ensures Tagged(TailMoved(cells, top, size), head', foot)
  {
    hide LeastSize;
    var cells', t := TailMoved(cells, top, size), After(cells, top);
    assert Fits(top, cells[top]);
    forall q | q in cells' && !cells'[q].kind.Tail? ensures HeadAt(cells', head', q) {
      if cells[q].prev != 0 {
        assert Preceded(cells, q);
      }
      if q != top {
        assert HeadAt(cells, head, q);
        OtherPrev(cells, top, q);
      }
    }
    forall q | q in cells' && IsFree(cells'[q].kind) ensures FootAt(cells', foot, q) {
      assert FootAt(cells, foot, q);
    }
  }

  lemma TailMovedKept(cells: Cells, sizes: map<Addr, nat>, dv: Addr, dvsize: nat, top: Addr, topsize: nat, size: nat)
    requires IsBinned(cells, sizes) && IsVictim(cells, dv, dvsize) && IsTop(cells, top, topsize)
    requires After(cells, top) in cells && cells[After(cells, top)].kind.Tail? && CanMove(cells, top, size)
    requires topsize > 0
    ensures var c := TailMoved(cells, top, size);
      IsBinned(c, sizes) && IsVictim(c, dv, dvsize) && IsTop(c, top, size) && Blocks(c) == Blocks(cells)
  {
  }

  // ------------------------------------------------------------------- a new segment

  // A region of its own, all of it top.
  function WithSegment(cells: Cells, s: nat, base: Addr, size: nat): Cells
    requires size >= TOP_FOOT_SIZE
  {
    cells[base := Cell(size - TOP_FOOT_SIZE, Top, 0, s)]
         [base + size - TOP_FOOT_SIZE := Cell(TOP_FOOT_SIZE, Tail, base, s)]
  }

  ghost predicate CanMap(cells: Cells, ranges: Ranges, s: nat, base: Addr, size: nat) {
    && s !in ranges && base > 0 && base % 8 == 0 && size % 8 == 0 && size >= TOP_FOOT_SIZE + 8
    && base + size <= LIMIT && Unused(cells, base, base + size)
  }

  lemma WithSegmentOk(cells: Cells, ranges: Ranges, head: map<Addr, Head>, foot: map<Addr, Foot>,
                      s: nat, base: Addr, size: nat, head': map<Addr, Head>)
    requires HeapOk(cells, ranges, head, foot) && CanMap(cells, ranges, s, base, size)
    requires base in head' && head'[base] == Head(size - TOP_FOOT_SIZE, false, true)
    requires forall q :: q in cells && q in head ==> q in head' && head'[q] == head[q]
    ensures HeapOk(WithSegment(cells, s, base, size), ranges[s := Range(base, base + size)], head', foot)
  {
    NewAddresses(cells, base, size);
    WithSegmentTiled(cells, ranges, s, base, size);
    WithSegmentTags(cells, ranges, head, foot, s, base, size, head');
    hide Tiled;
    hide Covering;
    hide Coalesced;
    hide Tagged;
    hide CanMap;
  }

  lemma NewAddresses(cells: Cells, base: Addr, size: nat)
    requires AllFit(cells) && Unused(cells, base, base + size) && size >= TOP_FOOT_SIZE + 8
    ensures forall q :: base <= q < base + size ==> q !in cells
    ensures forall q :: q in cells && q < base ==> After(cells, q) <= base
  {
    forall q | q in cells ensures cells[q].size > 0 {
      assert Fits(q, cells[q]);
    }
  }

  lemma WithSegmentTiled(cells: Cells, ranges: Ranges, s: nat, base: Addr, size: nat)
    requires Tiled(cells) && Covering(cells, ranges) && CanMap(cells, ranges, s, base, size)
    requires forall q :: base <= q < base + size ==> q !in cells
    ensures Tiled(WithSegment(cells, s, base, size))
    ensures Covering(WithSegment(cells, s, base, size), ranges[s := Range(base, base + size)])
  {
    FitPositive(cells);
    WithSegmentOrdered(cells, s, base, size);
    WithSegmentChained(cells, s, base, size);
    WithSegmentCovers(cells, ranges, s, base, size);
  }

  lemma WithSegmentOrdered(cells: Cells, s: nat, base: Addr, size: nat)
    requires AllFit(cells) && Ordered(cells) && Unused(cells, base, base + size)
    requires base > 0 && base % 8 == 0 && size % 8 == 0 && size >= TOP_FOOT_SIZE + 8 && base + size <= LIMIT
    requires forall q :: base <= q < base + size ==> q !in cells
    ensures AllFit(WithSegment(cells, s, base, size)) && Ordered(WithSegment(cells, s, base, size))
  {
    var cells', t := WithSegment(cells, s, base, size), base + size - TOP_FOOT_SIZE;
    assert Fits(base, cells'[base]) && Fits(t, cells'[t]);
    FitPositive(cells);
    hide Fits;
  }

  lemma WithSegmentChained(cells: Cells, s: nat, base: Addr, size: nat)
    requires Chained(cells) && Positive(cells) && size >= TOP_FOOT_SIZE + 8 && base > 0
    requires forall q :: base <= q < base + size ==> q !in cells
    ensures Chained(WithSegment(cells, s, base, size))
  {
    var cells' := WithSegment(cells, s, base, size);
    forall q | q in cells' && !cells'[q].kind.Tail? ensures Follows(cells', q) {
      if q in cells {
        assert Follows(cells, q);
      }
    }
    forall q | q in cells' && cells'[q].prev != 0 ensures Preceded(cells', q) {
      if q in cells {
        assert Preceded(cells, q);
      }
    }
  }

  lemma WithSegmentCovers(cells: Cells, ranges: Ranges, s: nat, base: Addr, size: nat)
    requires Covering(cells, ranges) && s !in ranges && size >= TOP_FOOT_SIZE + 8 && base > 0
    requires forall q :: base <= q < base + size ==> q !in cells
    ensures Covering(WithSegment(cells, s, base, size), ranges[s := Range(base, base + size)])
  {
    var cells', ranges' := WithSegment(cells, s, base, size), ranges[s := Range(base, base + size)];
    forall q | q in cells' ensures Placed(q, cells'[q], ranges') {
      if q in cells {
        assert Placed(q, cells[q], ranges);
      }
    }
  }

  lemma WithSegmentTags(cells: Cells, ranges: Ranges, head: map<Addr, Head>, foot: map<Addr, Foot>,
                        s: nat, base: Addr, size: nat, head': map<Addr, Head>)
    requires Tiled(cells) && Coalesced(cells) && Tagged(cells, head, foot) && CanMap(cells, ranges, s, base, size)
    requires forall q :: base <= q < base + size ==> q !in cells
    requires base in head' && head'[base] == Head(size - TOP_FOOT_SIZE, false, true)
    requires forall q :: q in cells && q in head ==> q in head' && head'[q] == head[q]
    ensures Coalesced(WithSegment(cells, s, base, size)) && Tagged(WithSegment(cells, s, base, size), head', foot)
  {
    hide AllFit;
    hide Ordered;
    hide Unused;
    FitPositive(cells);
    var cells' := WithSegment(cells, s, base, size);
    forall q | q in cells' && !cells'[q].kind.Tail? ensures Apart(cells', q) && HeadAt(cells', head', q) {
      if q in cells {
        assert Apart(cells, q) && HeadAt(cells, head, q) && Follows(cells, q);
        if cells[q].prev != 0 {
          assert Preceded(cells, q);
        }
      }
    }
    forall q | q in cells' && IsFree(cells'[q].kind) ensures FootAt(cells', foot, q) {
      assert FootAt(cells, foot, q);
    }
  }

  // ------------------------------------------------------------ the old top is given up

  // The segment record goes behind the old top, which is now an ordinary free chunk.
  function TopBinned(cells: Cells, p: Addr): Cells
    requires p in cells && After(cells, p) in cells
  {
    var t, c := After(cells, p), cells[p];
    cells[p := c.(kind := Binned)][t := Cell(MIN_CHUNK_SIZE, System, p, c.seg)]
         [t + MIN_CHUNK_SIZE := Cell(MIN_CHUNK_SIZE, Tail, t, c.seg)]
  }

  lemma TopBinnedOk(cells: Cells, ranges: Ranges, head: map<Addr, Head>, foot: map<Addr, Foot>, p: Addr,
                    head': map<Addr, Head>, foot': map<Addr, Foot>)
    requires HeapOk(cells, ranges, head, foot) && p in cells && cells[p].kind.Top? && cells[p].size >= MIN_CHUNK_SIZE
    requires var t := After(cells, p);
      && p in head' && head'[p] == Head(cells[p].size, false, true)
      && t in head' && head'[t] == Head(MIN_CHUNK_SIZE, true, false)
      && foot' == foot[t := Size(cells[p].size)]
      && forall q :: q in cells && q != p && q != t && q in head ==> q in head' && head'[q] == head[q]
    ensures After(cells, p) in cells
    ensures HeapOk(TopBinned(cells, p), ranges, head', foot')
  {
    TopNeighbours(cells, head, foot, p);
    TopBinnedTiled(cells, ranges, p);
    TopBinnedTags(cells, head, foot, p, head', foot');
    hide Tiled;
    hide Covering;
    hide Coalesced;
    hide Tagged;
  }

  lemma TopBinnedTiled(cells: Cells, ranges: Ranges, p: Addr)
    requires Tiled(cells) && Covering(cells, ranges) && p in cells && cells[p].kind.Top? &&
      cells[p].size >= MIN_CHUNK_SIZE
    requires Follows(cells, p) && cells[After(cells, p)].kind.Tail? && cells[After(cells, p)].size == TOP_FOOT_SIZE
    ensures Tiled(TopBinned(cells, p)) && Covering(TopBinned(cells, p), ranges)
  {
    FitPositive(cells);
    TopBinnedOrdered(cells, p);
    TopBinnedChained(cells, p);
    TopBinnedCovers(cells, ranges, p);
    hide AllFit;
    hide Ordered;
    hide Chained;
    hide Covering;
  }

  lemma TopBinnedOrdered(cells: Cells, p: Addr)
    requires AllFit(cells) && Ordered(cells) && Positive(cells) && p in cells && cells[p].kind.Top? &&
      cells[p].size >= MIN_CHUNK_SIZE
    requires Follows(cells, p) && cells[After(cells, p)].kind.Tail? && cells[After(cells, p)].size == TOP_FOOT_SIZE
    ensures AllFit(TopBinned(cells, p)) && Ordered(TopBinned(cells, p))
  {
    var cells', t := TopBinned(cells, p), After(cells, p);
    assert Fits(p, cells[p]) && Fits(t, cells[t]);
    assert Fits(p, cells'[p]) && Fits(t, cells'[t]) && Fits(t + MIN_CHUNK_SIZE, cells'[t + MIN_CHUNK_SIZE]);
    hide Fits;
  }

  lemma TopBinnedChained(cells: Cells, p: Addr)
    requires Ordered(cells) && Chained(cells) && Positive(cells) && p in cells && cells[p].kind.Top? &&
      cells[p].size >= MIN_CHUNK_SIZE
    requires Follows(cells, p) && cells[After(cells, p)].kind.Tail? && cells[After(cells, p)].size == TOP_FOOT_SIZE
    ensures Chained(TopBinned(cells, p))
  {
    var cells', t := TopBinned(cells, p), After(cells, p);
    var e := t + MIN_CHUNK_SIZE;
    forall q | q in cells' && !cells'[q].kind.Tail? ensures Follows(cells', q) {
      if q != t {
        assert Follows(cells, q);
      }
    }
    forall q | q in cells' && cells'[q].prev != 0 ensures Preceded(cells', q) {
      if q != e {
        assert Preceded(cells, q);
      }
    }
  }

  lemma TopBinnedCovers(cells: Cells, ranges: Ranges, p: Addr)
    requires Ordered(cells) && Covering(cells, ranges) && Positive(cells) && p in cells && cells[p].kind.Top? &&
      cells[p].size >= MIN_CHUNK_SIZE
    requires Follows(cells, p) && cells[After(cells, p)].kind.Tail? && cells[After(cells, p)].size == TOP_FOOT_SIZE
    ensures Covering(TopBinned(cells, p), ranges)
  {
    var cells', t := TopBinned(cells, p), After(cells, p);
    var e := t + MIN_CHUNK_SIZE;
    assert Placed(p, cells[p], ranges) && Placed(t, cells[t], ranges);
    forall q | q in cells' ensures Placed(q, cells'[q], ranges) {
      if q != e {
        assert Placed(q, cells[q], ranges);
      }
    }
  }

  lemma TopBinnedTags(cells: Cells, head: map<Addr, Head>, foot: map<Addr, Foot>, p: Addr,
                      head': map<Addr, Head>, foot': map<Addr, Foot>)
    requires Tiled(cells) && Coalesced(cells) && Tagged(cells, head, foot) && p in cells && cells[p].kind.Top?
    requires Follows(cells, p) && cells[After(cells, p)].kind.Tail? && cells[After(cells, p)].size == TOP_FOOT_SIZE
    requires PrevInUse(cells, p)
    requires var t := After(cells, p);
      && p in head' && head'[p] == Head(cells[p].size, false, true)
      && t in head' && head'[t] == Head(MIN_CHUNK_SIZE, true, false)
      && foot' == foot[t := Size(cells[p].size)]
      && forall q :: q in cells && q != p && q != t && q in head ==> q in head' && head'[q] == head[q]
    ensures Coalesced(TopBinned(cells, p)) && Tagged(TopBinned(cells, p), head', foot')
  {
    FitPositive(cells);
    hide AllFit;
    TopBinnedApart(cells, p);
    TopBinnedFeet(cells, foot, p, foot');
    var cells', t := TopBinned(cells, p), After(cells, p);
    hide Ordered;
    hide FootAt;
    forall q | q in cells' && !cells'[q].kind.Tail? ensures HeadAt(cells', head', q) {
      if q != t {
        assert HeadAt(cells, head, q);
        if cells[q].prev != 0 {
          assert Preceded(cells, q);
        }
      }
    }
  }

  lemma TopBinnedApart(cells: Cells, p: Addr)
    requires Ordered(cells) && Chained(cells) && Positive(cells) && Coalesced(cells) && p in cells && cells[p].kind.Top?
    requires Follows(cells, p) && cells[After(cells, p)].kind.Tail? && cells[After(cells, p)].size == TOP_FOOT_SIZE
    ensures Coalesced(TopBinned(cells, p))
  {
    var cells', t := TopBinned(cells, p), After(cells, p);
    forall q | q in cells' && !cells'[q].kind.Tail? ensures Apart(cells', q) {
      if q != t {
        assert Apart(cells, q) && Follows(cells, q);
      }
    }
  }

  lemma TopBinnedFeet(cells: Cells, foot: map<Addr, Foot>, p: Addr, foot': map<Addr, Foot>)
    requires Ordered(cells) && Chained(cells) && Positive(cells) && Coalesced(cells) && p in cells && cells[p].kind.Top?
    requires Follows(cells, p) && cells[After(cells, p)].kind.Tail? && cells[After(cells, p)].size == TOP_FOOT_SIZE
    requires foot' == foot[After(cells, p) := Size(cells[p].size)]
    requires forall q :: q in cells && IsFree(cells[q].kind) ==> FootAt(cells, foot, q)
    ensures forall q :: q in TopBinned(cells, p) && IsFree(TopBinned(cells, p)[q].kind) ==>
      FootAt(TopBinned(cells, p), foot', q)
  {
    var cells' := TopBinned(cells, p);
    forall q | q in cells' && IsFree(cells'[q].kind) ensures FootAt(cells', foot', q) {
      if q != p {
        assert FootAt(cells, foot, q) && Apart(cells, q) && Follows(cells, q);
      }
    }
  }

  // A top too small for that becomes the record itself.
  function TopTaken(cells: Cells, p: Addr): Cells
    requires p in cells && After(cells, p) in cells && cells[p].size < MIN_CHUNK_SIZE
  {
    var t, c := After(cells, p), cells[p];
    (cells - {t})[p := c.(kind := System, size := MIN_CHUNK_SIZE)]
         [p + MIN_CHUNK_SIZE := Cell(c.size + TOP_FOOT_SIZE - MIN_CHUNK_SIZE, Tail, p, c.seg)]
  }

  lemma TopTakenOk(cells: Cells, ranges: Ranges, head: map<Addr, Head>, foot: map<Addr, Foot>, p: Addr,
                   head': map<Addr, Head>)
    requires HeapOk(cells, ranges, head, foot) && p in cells && cells[p].kind.Top? && cells[p].size < MIN_CHUNK_SIZE
    requires p in head' && head'[p] == Head(MIN_CHUNK_SIZE, true, true)
    requires forall q :: q in cells && q != p && q != After(cells, p) && q in head ==> q in head' && head'[q] == head[q]
    ensures After(cells, p) in cells
    ensures HeapOk(TopTaken(cells, p), ranges, head', foot)
  {
    TopNeighbours(cells, head, foot, p);
    TopTakenTiled(cells, ranges, p);
    TopTakenTags(cells, head, foot, p, head');
    hide Tiled;
    hide Covering;
    hide Coalesced;
    hide Tagged;
  }

  lemma TopTakenTiled(cells: Cells, ranges: Ranges, p: Addr)
    requires Tiled(cells) && Covering(cells, ranges) && p in cells && cells[p].kind.Top? &&
      cells[p].size < MIN_CHUNK_SIZE
    requires Follows(cells, p) && cells[After(cells, p)].kind.Tail? && cells[After(cells, p)].size == TOP_FOOT_SIZE
    ensures Tiled(TopTaken(cells, p)) && Covering(TopTaken(cells, p), ranges)
  {
    FitPositive(cells);
    TopTakenOrdered(cells, p);
    TopTakenChained(cells, p);
    TopTakenCovers(cells, ranges, p);
    hide AllFit;
    hide Ordered;
    hide Chained;
    hide Covering;
  }

  lemma TopTakenOrdered(cells: Cells, p: Addr)
    requires AllFit(cells) && Ordered(cells) && Positive(cells) && p in cells && cells[p].kind.Top? &&
      cells[p].size < MIN_CHUNK_SIZE
    requires Follows(cells, p) && cells[After(cells, p)].kind.Tail? && cells[After(cells, p)].size == TOP_FOOT_SIZE
    ensures AllFit(TopTaken(cells, p)) && Ordered(TopTaken(cells, p))
  {
    var cells', t := TopTaken(cells, p), After(cells, p);
    assert Fits(p, cells[p]) && Fits(t, cells[t]);
    assert Fits(p, cells'[p]) && Fits(p + MIN_CHUNK_SIZE, cells'[p + MIN_CHUNK_SIZE]);
  }

  lemma TopTakenChained(cells: Cells, p: Addr)
    requires Ordered(cells) && Chained(cells) && Positive(cells) && p in cells && cells[p].kind.Top? &&
      cells[p].size < MIN_CHUNK_SIZE
    requires Follows(cells, p) && cells[After(cells, p)].kind.Tail? && cells[After(cells, p)].size == TOP_FOOT_SIZE
    ensures Chained(TopTaken(cells, p))
  {
    var cells', t := TopTaken(cells, p), After(cells, p);
    var e := p + MIN_CHUNK_SIZE;
    forall q | q in cells' && !cells'[q].kind.Tail? ensures Follows(cells', q) {
      assert Follows(cells, q);
    }
    forall q | q in cells' && cells'[q].prev != 0 ensures Preceded(cells', q) {
      if q != e {
        assert Preceded(cells, q);
      }
    }
  }

  lemma TopTakenCovers(cells: Cells, ranges: Ranges, p: Addr)
    requires Ordered(cells) && Covering(cells, ranges) && Positive(cells) && p in cells && cells[p].kind.Top? &&
      cells[p].size < MIN_CHUNK_SIZE
    requires Follows(cells, p) && cells[After(cells, p)].kind.Tail? && cells[After(cells, p)].size == TOP_FOOT_SIZE
    ensures Covering(TopTaken(cells, p), ranges)
  {
    hide Tagged;
    var cells', t := TopTaken(cells, p), After(cells, p);
    var e := p + MIN_CHUNK_SIZE;
    assert Placed(p, cells[p], ranges) && Placed(t, cells[t], ranges);
    forall q | q in cells' ensures Placed(q, cells'[q], ranges) {
      if q != e {
        assert Placed(q, cells[q], ranges);
      }
    }
  }

  lemma TopTakenTags(cells: Cells, head: map<Addr, Head>, foot: map<Addr, Foot>, p: Addr, head': map<Addr, Head>)
    requires Tiled(cells) && Coalesced(cells) && Tagged(cells, head, foot) && p in cells && cells[p].kind.Top?
    requires cells[p].size < MIN_CHUNK_SIZE && PrevInUse(cells, p)
    requires Follows(cells, p) && cells[After(cells, p)].kind.Tail? && cells[After(cells, p)].size == TOP_FOOT_SIZE
    requires p in head' && head'[p] == Head(MIN_CHUNK_SIZE, true, true)
    requires forall q :: q in cells && q != p && q != After(cells, p) && q in head ==> q in head' && head'[q] == head[q]
    ensures Coalesced(TopTaken(cells, p)) && Tagged(TopTaken(cells, p), head', foot)
  {
    hide AllFit;
    hide Ordered;
    FitPositive(cells);
    TopTakenApart(cells, p);
    TopTakenHeads(cells, head, foot, p, head');
    var cells' := TopTaken(cells, p);
    forall q | q in cells' && IsFree(cells'[q].kind) ensures FootAt(cells', foot, q) {
      assert FootAt(cells, foot, q);
    }
  }

  lemma TopTakenApart(cells: Cells, p: Addr)
    requires Ordered(cells) && Chained(cells) && Coalesced(cells) && Positive(cells) && p in cells && cells[p].kind.Top?
    requires cells[p].size < MIN_CHUNK_SIZE
    requires Follows(cells, p) && cells[After(cells, p)].kind.Tail? && cells[After(cells, p)].size == TOP_FOOT_SIZE
    ensures Coalesced(TopTaken(cells, p))
  {
    var cells' := TopTaken(cells, p);
    forall q | q in cells' && !cells'[q].kind.Tail? ensures Apart(cells', q) {
      assert Apart(cells, q) && Follows(cells, q);
    }
  }

  lemma TopTakenHeads(cells: Cells, head: map<Addr, Head>, foot: map<Addr, Foot>, p: Addr, head': map<Addr, Head>)
    requires Ordered(cells) && Chained(cells) && Positive(cells) && Tagged(cells, head, foot) && p in cells &&
      cells[p].kind.Top?
    requires cells[p].size < MIN_CHUNK_SIZE && PrevInUse(cells, p)
    requires Follows(cells, p) && cells[After(cells, p)].kind.Tail? && cells[After(cells, p)].size == TOP_FOOT_SIZE
    requires p in head' && head'[p] == Head(MIN_CHUNK_SIZE, true, true)
    requires forall q :: q in cells && q != p && q != After(cells, p) && q in head ==> q in head' && head'[q] == head[q]
    ensures forall q {:trigger HeadAt(TopTaken(cells, p), head', q)} ::
      q in TopTaken(cells, p) && !TopTaken(cells, p)[q].kind.Tail? ==>
      HeadAt(TopTaken(cells, p), head', q)
  {
    var cells' := TopTaken(cells, p);
    forall q | q in cells' && !cells'[q].kind.Tail? ensures HeadAt(cells', head', q) {
      assert HeadAt(cells, head, q);
      if cells[q].prev != 0 {
        assert Preceded(cells, q);
      }
    }
  }

  // -------------------------------------------------- a segment is extended downwards

  // The new memory in front of a segment, as one chunk in use.
  function Extended(cells: Cells, base: Addr, old_base: Addr, k: Kind): Cells
    requires old_base in cells && base < old_base
  {
    var c := cells[old_base];
    cells[base := Cell(old_base - base, k, 0, c.seg)][old_base := c.(prev := base)]
  }

  ghost predicate CanExtend(cells: Cells, ranges: Ranges, base: Addr, first: Addr, k: Kind) {
    && base > 0 && base % 8 == 0 && base + LeastSize(k) <= first && k.User?
    && first in cells && cells[first].prev == 0 && cells[first].seg in ranges && ranges[cells[first].seg].lo == first
    && !cells[first].kind.Tail? && Unused(cells, base, first)
  }

  lemma ExtendedOk(cells: Cells, ranges: Ranges, head: map<Addr, Head>, foot: map<Addr, Foot>,
                   base: Addr, first: Addr, k: Kind, head': map<Addr, Head>)
    requires HeapOk(cells, ranges, head, foot) && CanExtend(cells, ranges, base, first, k)
    requires base in head' && head'[base] == Head(first - base, true, true)
    requires forall q :: q in cells && q in head ==> q in head' && head'[q] == head[q]
    ensures base < first
    ensures var s := cells[first].seg;
      HeapOk(Extended(cells, base, first, k), ranges[s := ranges[s].(lo := base)], head', foot)
  {
    FitPositive(cells);
    FirstFits(cells, first);
    ExtendedOrdered(cells, base, first, k);
    ExtendedChained(cells, base, first, k);
    ExtendedCovers(cells, ranges, base, first, k);
    ExtendedTags(cells, head, foot, base, first, k, head');
    hide AllFit;
    hide Ordered;
    hide Chained;
    hide Covering;
    hide Coalesced;
    hide Tagged;
    hide CanExtend;
  }

  lemma FirstFits(cells: Cells, first: Addr)
    requires AllFit(cells) && first in cells
    ensures first % 8 == 0 && first <= LIMIT
  {
    assert Fits(first, cells[first]);
  }

  lemma ExtendedOrdered(cells: Cells, base: Addr, first: Addr, k: Kind)
    requires AllFit(cells) && Ordered(cells) && Positive(cells) && first in cells && Unused(cells, base, first)
    requires base > 0 && base % 8 == 0 && first % 8 == 0 && first <= LIMIT && base + LeastSize(k) <= first && k.User?
    ensures base < first && base !in cells
    ensures AllFit(Extended(cells, base, first, k)) && Ordered(Extended(cells, base, first, k))
  {
    var cells' := Extended(cells, base, first, k);
    assert Fits(first, cells[first]);
    assert Fits(base, cells'[base]) && Fits(first, cells'[first]);
    hide Fits;
  }

  lemma ExtendedChained(cells: Cells, base: Addr, first: Addr, k: Kind)
    requires Chained(cells) && Positive(cells) && first in cells && cells[first].prev == 0 && k.User?
    requires 0 < base < first && base !in cells
    ensures Chained(Extended(cells, base, first, k))
  {
    var cells' := Extended(cells, base, first, k);
    forall q | q in cells' && !cells'[q].kind.Tail? ensures Follows(cells', q) {
      if q != base {
        assert Follows(cells, q);
      }
    }
    forall q | q in cells' && cells'[q].prev != 0 ensures Preceded(cells', q) {
      if q != first {
        assert Preceded(cells, q);
      }
    }
  }

  lemma ExtendedCovers(cells: Cells, ranges: Ranges, base: Addr, first: Addr, k: Kind)
    requires Covering(cells, ranges) && Ordered(cells) && Positive(cells) && Unused(cells, base, first)
    requires first in cells && cells[first].prev == 0 && cells[first].seg in ranges &&
      ranges[cells[first].seg].lo == first
    requires 0 < base < first && base !in cells && k.User?
    ensures var s := cells[first].seg; Covering(Extended(cells, base, first, k), ranges[s := ranges[s].(lo := base)])
  {
    var cells', s := Extended(cells, base, first, k), cells[first].seg;
    var ranges' := ranges[s := ranges[s].(lo := base)];
    assert Placed(first, cells[first], ranges);
    forall q | q in cells' ensures Placed(q, cells'[q], ranges') {
      if q != base {
        assert Placed(q, cells[q], ranges);
      }
    }
  }

  lemma ExtendedTags(cells: Cells, head: map<Addr, Head>, foot: map<Addr, Foot>,
                     base: Addr, first: Addr, k: Kind, head': map<Addr, Head>)
    requires Chained(cells) && Positive(cells) && Coalesced(cells) && Tagged(cells, head, foot) &&
      Unused(cells, base, first)
    requires first in cells && cells[first].prev == 0 && !cells[first].kind.Tail? && k.User?
    requires 0 < base < first && base !in cells
    requires base in head' && head'[base] == Head(first - base, true, true)
    requires forall q :: q in cells && q in head ==> q in head' && head'[q] == head[q]
    ensures Coalesced(Extended(cells, base, first, k)) && Tagged(Extended(cells, base, first, k), head', foot)
  {
    var cells' := Extended(cells, base, first, k);
    forall q | q in cells' && !cells'[q].kind.Tail? ensures Apart(cells', q) && HeadAt(cells', head', q) {
      if q != base {
        assert Apart(cells, q) && HeadAt(cells, head, q) && Follows(cells, q);
        if cells[q].prev != 0 {
          assert Preceded(cells, q);
        }
      }
    }
    forall q | q in cells' && IsFree(cells'[q].kind) ensures FootAt(cells', foot, q) {
      assert FootAt(cells, foot, q);
    }
  }

  // ------------------------------------------------------------ a segment is given back

  function WithoutSegment(cells: Cells, s: nat): Cells {
    map p | p in cells && cells[p].seg != s :: cells[p]
  }

  lemma WithoutSegmentOk(cells: Cells, ranges: Ranges, head: map<Addr, Head>, foot: map<Addr, Foot>, s: nat)
    requires HeapOk(cells, ranges, head, foot)
    ensures HeapOk(WithoutSegment(cells, s), ranges - {s}, head, foot)
  {
    hide AllFit;
    hide Ordered;
    hide Chained;
    hide Covering;
    hide Coalesced;
    hide Tagged;
    hide WithoutSegment;
    WithoutSegmentTiled(cells, ranges, s);
    WithoutSegmentApart(cells, s);
    WithoutSegmentTags(cells, head, foot, s);
  }

  lemma WithoutSegmentApart(cells: Cells, s: nat)
    requires Chained(cells) && Coalesced(cells)
    ensures Coalesced(WithoutSegment(cells, s))
  {
    var cells' := WithoutSegment(cells, s);
    forall q | q in cells' && !cells'[q].kind.Tail? ensures Apart(cells', q) {
      assert Apart(cells, q) && Follows(cells, q);
    }
  }

  lemma WithoutSegmentTags(cells: Cells, head: map<Addr, Head>, foot: map<Addr, Foot>, s: nat)
    requires Tiled(cells) && Tagged(cells, head, foot)
    ensures Tagged(WithoutSegment(cells, s), head, foot)
  {
    hide Ordered;
    FitPositive(cells);
    var cells' := WithoutSegment(cells, s);
    forall q | q in cells' && !cells'[q].kind.Tail? ensures HeadAt(cells', head, q) {
      assert HeadAt(cells, head, q);
      WithoutPrev(cells, s, q);
    }
    forall q | q in cells' && IsFree(cells'[q].kind) ensures FootAt(cells', foot, q) {
      assert FootAt(cells, foot, q);
    }
  }

  lemma WithoutPrev(cells: Cells, s: nat, q: Addr)
    requires Chained(cells) && q in cells && cells[q].seg != s
    ensures cells[q].prev != 0 ==> cells[q].prev in cells && cells[cells[q].prev].seg == cells[q].seg
  {
    if cells[q].prev != 0 {
      assert Preceded(cells, q);
      assert Follows(cells, cells[q].prev);
    }
  }

  lemma WithoutSegmentTiled(cells: Cells, ranges: Ranges, s: nat)
    requires Tiled(cells) && Covering(cells, ranges)
    ensures Tiled(WithoutSegment(cells, s)) && Covering(WithoutSegment(cells, s), ranges - {s})
  {
    WithoutSegmentOrdered(cells, s);
    WithoutSegmentChained(cells, s);
    WithoutSegmentCovers(cells, ranges, s);
    hide AllFit;
    hide Ordered;
    hide Chained;
    hide Covering;
  }

  lemma WithoutSegmentOrdered(cells: Cells, s: nat)
    requires AllFit(cells) && Ordered(cells)
    ensures AllFit(WithoutSegment(cells, s)) && Ordered(WithoutSegment(cells, s))
  {
    hide Fits;
  }

  lemma WithoutSegmentChained(cells: Cells, s: nat)
    requires Chained(cells)
    ensures Chained(WithoutSegment(cells, s))
  {
    var cells' := WithoutSegment(cells, s);
    forall q | q in cells' && !cells'[q].kind.Tail? ensures Follows(cells', q) {
      assert Follows(cells, q);
    }
    forall q | q in cells' && cells'[q].prev != 0 ensures Preceded(cells', q) {
      assert Preceded(cells, q);
      WithoutPrev(cells, s, q);
    }
  }

  lemma WithoutSegmentCovers(cells: Cells, ranges: Ranges, s: nat)
    requires Covering(cells, ranges)
    ensures Covering(WithoutSegment(cells, s), ranges - {s})
  {
    var cells' := WithoutSegment(cells, s);
    forall q | q in cells' ensures Placed(q, cells'[q], ranges - {s}) {
      assert Placed(q, cells[q], ranges);
    }
  }

  // A segment whose first chunk is free up to its last few bytes holds nothing but that chunk, a
  // chunk of the allocator, and its end.
  lemma OnlyFree(cells: Cells, ranges: Ranges, s: nat, p: Addr)
    requires Tiled(cells) && Coalesced(cells) && Covering(cells, ranges) && s in ranges && p == ranges[s].lo
    requires p in cells && IsFree(cells[p].kind) && After(cells, p) >= ranges[s].hi - TOP_FOOT_SIZE
    requires forall q :: q in cells && cells[q].kind.Top? ==> cells[q].seg != s
    ensures forall q :: q in cells && cells[q].seg == s && q != p ==> cells[q].kind.System? || cells[q].kind.Tail?
    ensures cells[p].seg == s
  {
    var n := After(cells, p);
    assert Placed(p, cells[p], ranges) && Fits(p, cells[p]) && Follows(cells, p) && Apart(cells, p);
    assert Placed(n, cells[n], ranges) && Fits(n, cells[n]) && Follows(cells, n) && Apart(cells, n);
    var t := After(cells, n);
    assert Placed(t, cells[t], ranges) && Fits(t, cells[t]);
    var hi := ranges[s].hi;
    assert cells[p].seg == s && cells[t].seg == s;
    assert n >= hi - 64 && t >= n + 32 && t + cells[t].size <= hi && cells[t].size >= 32;
    assert t + cells[t].size == hi && cells[t].kind.Tail? && cells[n].kind.System?;
    forall q | q in cells && cells[q].seg == s && q != p ensures q == n || q == t {
      assert Placed(q, cells[q], ranges) && Fits(q, cells[q]);
      assert q > p;
      assert q >= n;
      assert q > n ==> q >= t;
      assert q > t ==> q >= hi;
    }
  }

  lemma ReleasedKept(cells: Cells, ranges: Ranges, s: nat, p: Addr,
                     sizes: map<Addr, nat>, dv: Addr, dvsize: nat, top: Addr, topsize: nat)
    requires Tiled(cells) && Coalesced(cells) && Covering(cells, ranges) && s in ranges && p == ranges[s].lo
    requires p in cells && IsFree(cells[p].kind) && After(cells, p) >= ranges[s].hi - TOP_FOOT_SIZE
    requires forall q :: q in cells && cells[q].kind.Top? ==> cells[q].seg != s
    requires IsBinned(cells, sizes) && IsVictim(cells, dv, dvsize) && IsTop(cells, top, topsize)
    ensures var c := WithoutSegment(cells, s);
      && IsBinned(c, sizes - {p}) && IsVictim(c, if p == dv then 0 else dv, if p == dv then 0 else dvsize)
      && IsTop(c, top, topsize) && Blocks(c) == Blocks(cells)
  {
    hide Tiled, Coalesced, Covering;
    OnlyFree(cells, ranges, s, p);
    forall q | q in cells && cells[q].kind.User? ensures cells[q].seg != s {
    }
  }

  // ----------------------------------------------------------- what the allocator keeps

  // A new segment lies apart from the old top.
  ghost predicate NewBeside(cells: Cells, top: Addr, base: Addr, size: nat) {
    && top in cells && After(cells, top) in cells && cells[After(cells, top)].kind.Tail? && cells[top].size > 0
    && size >= TOP_FOOT_SIZE + 8 && (forall q :: base <= q < base + size ==> q !in cells)
    && (base + size <= top || base >= After(cells, top) + TOP_FOOT_SIZE)
    && (forall q :: q in cells && q != top && q != After(cells, top) ==> !(top < q < After(cells, top) + TOP_FOOT_SIZE))
  }

  // It has become the top, and the old top a binned chunk.
  lemma TopBinnedKept(cells: Cells, sizes: map<Addr, nat>, dv: Addr, dvsize: nat, top: Addr, topsize: nat,
                      s: nat, base: Addr, size: nat)
    requires IsBinned(cells, sizes) && IsVictim(cells, dv, dvsize) && IsTop(cells, top, topsize) &&
      NewBeside(cells, top, base, size)
    requires topsize >= MIN_CHUNK_SIZE
    ensures var c := WithSegment(cells, s, base, size);
      && top in c && c[top] == cells[top] && After(c, top) in c
      && var c' := TopBinned(c, top);
      && IsBinned(c', sizes[top := topsize]) && IsVictim(c', dv, dvsize)
      && IsTop(c', base, size - TOP_FOOT_SIZE) && Blocks(c') == Blocks(cells) && c'[base].seg == s
  {
  }

  // Or a segment record.
  lemma TopTakenKept(cells: Cells, sizes: map<Addr, nat>, dv: Addr, dvsize: nat, top: Addr, topsize: nat,
                     s: nat, base: Addr, size: nat)
    requires IsBinned(cells, sizes) && IsVictim(cells, dv, dvsize) && IsTop(cells, top, topsize) &&
      NewBeside(cells, top, base, size)
    requires topsize < MIN_CHUNK_SIZE
    ensures var c := WithSegment(cells, s, base, size);
      && top in c && c[top] == cells[top] && After(c, top) in c
      && var c' := TopTaken(c, top);
      && IsBinned(c', sizes) && IsVictim(c', dv, dvsize)
      && IsTop(c', base, size - TOP_FOOT_SIZE) && Blocks(c') == Blocks(cells) && c'[base].seg == s
  {
  }

  lemma ExtendedKept(cells: Cells, sizes: map<Addr, nat>, dv: Addr, dvsize: nat, top: Addr, topsize: nat,
                     base: Addr, first: Addr, k: Kind)
    requires IsBinned(cells, sizes) && IsVictim(cells, dv, dvsize) && IsTop(cells, top, topsize)
    requires first in cells && base < first && base !in cells && k.User?
    ensures var c := Extended(cells, base, first, k);
      && IsBinned(c, sizes) && IsVictim(c, dv, dvsize) && IsTop(c, top, topsize)
      && Blocks(c) == Blocks(cells)[base := Block(k.req, first - base)]
  {
  }

  // The tags after a new segment was added and the old top binned; the fenceposts lie in the tail.
  lemma AddedBinnedOk(cells: Cells, ranges: Ranges, head: map<Addr, Head>, head1: map<Addr, Head>,
                      foot: map<Addr, Foot>, s: nat, base: Addr, size: nat, top: Addr, end: Addr,
                      head': map<Addr, Head>, foot': map<Addr, Foot>)
    requires HeapOk(cells, ranges, head, foot) && CanMap(cells, ranges, s, base, size)
    requires top in cells && cells[top].kind.Top? && cells[top].size >= MIN_CHUNK_SIZE && Follows(cells, top)
    requires forall q :: base <= q < base + size ==> q !in cells
    requires head1 == head[base := Head(size - TOP_FOOT_SIZE, false, true)][base + size - TOP_FOOT_SIZE :=
      Head(TOP_FOOT_SIZE, false, false)]
    requires end == After(cells, top) + TOP_FOOT_SIZE && (base + size <= top || base >= end)
    requires var t := After(cells, top);
      && top in head' && head'[top] == Head(cells[top].size, false, true)
      && t in head' && head'[t] == Head(MIN_CHUNK_SIZE, true, false) && foot' == foot[t := Size(cells[top].size)]
      && forall q :: q != top && q != t && !(t + MIN_CHUNK_SIZE <= q < end) && q in head1 ==>
        q in head' && head'[q] == head1[q]
    ensures var c := WithSegment(cells, s, base, size);
      top in c && After(c, top) in c && HeapOk(TopBinned(c, top), ranges[s := Range(base, base + size)], head', foot')
  {
    var c := WithSegment(cells, s, base, size);
    WithSegmentOk(cells, ranges, head, foot, s, base, size, head1);
    NothingInTail(cells, head, foot, top);
    TopBinnedOk(c, ranges[s := Range(base, base + size)], head1, foot, top, head', foot');
  }

  // The tags after a new segment was added and the old top became the segment record.
  lemma AddedTakenOk(cells: Cells, ranges: Ranges, head: map<Addr, Head>, head1: map<Addr, Head>, foot: map<Addr, Foot>,
                     s: nat, base: Addr, size: nat, top: Addr, end: Addr, head': map<Addr, Head>)
    requires HeapOk(cells, ranges, head, foot) && CanMap(cells, ranges, s, base, size)
    requires top in cells && cells[top].kind.Top? && cells[top].size < MIN_CHUNK_SIZE && Follows(cells, top)
    requires forall q :: base <= q < base + size ==> q !in cells
    requires head1 == head[base := Head(size - TOP_FOOT_SIZE, false, true)][base + size - TOP_FOOT_SIZE :=
      Head(TOP_FOOT_SIZE, false, false)]
    requires end == After(cells, top) + TOP_FOOT_SIZE && (base + size <= top || base >= end)
    requires top in head' && head'[top] == Head(MIN_CHUNK_SIZE, true, true)
    requires forall q :: q != top && !(top + MIN_CHUNK_SIZE <= q < end) && q in head1 ==>
      q in head' && head'[q] == head1[q]
    ensures var c := WithSegment(cells, s, base, size);
      top in c && After(c, top) in c && HeapOk(TopTaken(c, top), ranges[s := Range(base, base + size)], head', foot)
  {
    var c := WithSegment(cells, s, base, size);
    WithSegmentOk(cells, ranges, head, foot, s, base, size, head1);
    NothingInTail(cells, head, foot, top);
    TopTakenOk(c, ranges[s := Range(base, base + size)], head1, foot, top, head');
    hide HeapOk;
  }

  lemma NothingInTail(cells: Cells, head: map<Addr, Head>, foot: map<Addr, Foot>, top: Addr)
    requires Tiled(cells) && Coalesced(cells) && Tagged(cells, head, foot)
    requires top in cells && cells[top].kind.Top?
    ensures var t := After(cells, top);
      Follows(cells, top) && cells[t].kind.Tail? && cells[t].size == TOP_FOOT_SIZE && t > top > 0
      && forall q :: q in cells && top < q < t + TOP_FOOT_SIZE ==> q == t
  {
    TopNeighbours(cells, head, foot, top);
    FitPositive(cells);
    hide AllFit;
    hide Chained;
    hide Coalesced;
    hide Tagged;
  }
}
