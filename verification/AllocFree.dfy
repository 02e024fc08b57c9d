/** What happens to the chunks when one in use becomes free. */
module AllocFree {
  import opened AllocHeap
  import opened AllocLinks
  import opened AllocSegments
  import opened AllocSizes

  // The chunk before p, or the one behind it, is merged with p.
  predicate Back(cells: Cells, p: Addr)
    requires p in cells
  {
    cells[p].prev in cells && IsFree(cells[cells[p].prev].kind)
  }

  predicate Fwd(cells: Cells, p: Addr)
    requires p in cells && After(cells, p) in cells
  {
    !InUse(cells[After(cells, p)].kind)
  }

  // The result is the top, the victim, or goes to a bin.
  function MergedKind(cells: Cells, p: Addr): Kind
    requires p in cells && After(cells, p) in cells
  {
    var n := cells[After(cells, p)].kind;
    if n.Top? then Top
    else if n.Victim? || (Back(cells, p) && cells[cells[p].prev].kind.Victim?) then Victim
    else Binned
  }

  function MergedStart(cells: Cells, p: Addr): Addr
    requires p in cells
  {
    FreedStart(cells, p, Back(cells, p))
  }

  function MergedEnd(cells: Cells, p: Addr): Addr
    requires p in cells && After(cells, p) in cells
  {
    FreedEnd(cells, p, Fwd(cells, p))
  }

  ghost predicate CanFree(cells: Cells, p: Addr) {
    && p in cells && cells[p].kind.User? && After(cells, p) in cells && cells[p].size > 0 &&
      cells[After(cells, p)].size > 0
    && (Fwd(cells, p) ==> After(cells, After(cells, p)) in cells && After(cells, After(cells, p)) > After(cells, p))
    && (Back(cells, p) ==> After(cells, cells[p].prev) == p && cells[p].prev < p)
    && MergedStart(cells, p) < MergedEnd(cells, p)
  }

  // Chunk p is freed, and merged with the free chunks around it.
  function Merged(cells: Cells, p: Addr): Cells
    requires CanFree(cells, p)
  {
    Freed(cells, p, Back(cells, p), Fwd(cells, p), MergedKind(cells, p))
  }

  function MergedSizes(cells: Cells, sizes: map<Addr, nat>, p: Addr): map<Addr, nat>
    requires CanFree(cells, p)
  {
    var start, end := MergedStart(cells, p), MergedEnd(cells, p);
    var rest := sizes - {start, After(cells, p)};
    if MergedKind(cells, p).Binned? then rest[start := end - start] else rest
  }

  // All the allocator knows about its chunks.
  ghost predicate State(cells: Cells, ranges: Ranges, head: map<Addr, Head>, foot: map<Addr, Foot>,
                        sizes: map<Addr, nat>, dv: Addr, dvsize: nat, top: Addr, topsize: nat)
  {
    && HeapOk(cells, ranges, head, foot)
    && IsBinned(cells, sizes) && IsVictim(cells, dv, dvsize) && IsTop(cells, top, topsize)
  }

  // What the tags say about a chunk in use and its neighbours.
  lemma UsedTags(cells: Cells, ranges: Ranges, head: map<Addr, Head>, foot: map<Addr, Foot>, p: Addr)
    requires HeapOk(cells, ranges, head, foot) && p in cells && cells[p].kind.User?
    ensures CanFree(cells, p) && p > 0 && MergedStart(cells, p) > 0
    ensures p in head && head[p] == Head(cells[p].size, true, !Back(cells, p))
    ensures var n := After(cells, p);
      n in head && head[n] == Head(cells[n].size, !Fwd(cells, p), true) && n > p && !cells[n].kind.Tail?
    ensures Back(cells, p) ==>
      p in foot && foot[p] == Size(p - cells[p].prev) && cells[cells[p].prev].size == p - cells[p].prev
    ensures Fwd(cells, p) && !MergedKind(cells, p).Top? ==>
      var m := MergedEnd(cells, p); m in head && !head[m].pinuse
  {
    FreeableAround(cells, p);
    var n := After(cells, p);
    assert HeadAt(cells, head, p) && HeadAt(cells, head, n);
    if Back(cells, p) {
      assert FootAt(cells, foot, cells[p].prev);
    }
    if Fwd(cells, p) && !cells[n].kind.Top? {
      assert HeadAt(cells, head, After(cells, n));
    }
  }

  // The result starts with the victim only if that was merged.
  lemma MergedVictim(cells: Cells, p: Addr, dv: Addr, dvsize: nat)
    requires IsVictim(cells, dv, dvsize) && CanFree(cells, p) && cells[p].kind.User? && MergedStart(cells, p) > 0
    ensures MergedStart(cells, p) == dv <==> Back(cells, p) && cells[cells[p].prev].kind.Victim?
  {
  }

  // The tags once p is freed.
  ghost predicate MergedTags(cells: Cells, p: Addr, head: map<Addr, Head>, foot: map<Addr, Foot>,
                             head': map<Addr, Head>, foot': map<Addr, Foot>)
    requires CanFree(cells, p) && After(cells, p) in head
  {
    var n, start, end := After(cells, p), MergedStart(cells, p), MergedEnd(cells, p);
    && head' == (if Fwd(cells, p) then head
      else head[n := head[n].(pinuse := false)])[start := Head(end - start, false, true)]
    && foot' == if MergedKind(cells, p).Top? then foot else foot[end := Size(end - start)]
  }

  lemma FreeableAsMerged(cells: Cells, p: Addr)
    requires Tiled(cells) && Coalesced(cells) && CanFree(cells, p)
    ensures Freeable(cells, p, Back(cells, p), Fwd(cells, p), MergedKind(cells, p))
  {
    FreeableAround(cells, p);
    if Back(cells, p) && cells[cells[p].prev].kind.Victim? {
      assert Fits(cells[p].prev, cells[cells[p].prev]);
    }
  }

  lemma MergedTagsSame(cells: Cells, p: Addr, head: map<Addr, Head>, foot: map<Addr, Foot>,
                       head': map<Addr, Head>, foot': map<Addr, Foot>)
    requires Tiled(cells) && Coalesced(cells) && CanFree(cells, p) && After(cells, p) in head
    requires MergedTags(cells, p, head, foot, head', foot')
    ensures SameTags(Merged(cells, p), head, head', foot, foot', {MergedStart(cells, p), MergedEnd(cells, p)})
  {
    hide AllFit;
    hide Ordered;
    hide Coalesced;
    hide Freed;
    hide Freeable;
    FreeableAsMerged(cells, p);
    FreedShape(cells, p, Back(cells, p), Fwd(cells, p), MergedKind(cells, p));
    var c, start, end := Merged(cells, p), MergedStart(cells, p), MergedEnd(cells, p);
    forall q {:trigger After(c, q)} | q in c && q != start && q != end && IsFree(c[q].kind) ensures After(c, q) != end {
      assert Follows(cells, q);
    }
  }

  // Freeing keeps the heap well formed, and takes exactly one block from the user.
  lemma MergedOk(cells: Cells, ranges: Ranges, head: map<Addr, Head>, foot: map<Addr, Foot>, sizes: map<Addr, nat>,
                 dv: Addr, dvsize: nat, top: Addr, topsize: nat, p: Addr, head': map<Addr, Head>,
                   foot': map<Addr, Foot>)
    requires State(cells, ranges, head, foot, sizes, dv, dvsize, top, topsize) && p in cells && cells[p].kind.User?
    requires CanFree(cells, p) && After(cells, p) in head && MergedTags(cells, p, head, foot, head', foot')
    ensures Blocks(Merged(cells, p)) == Blocks(cells) - {p} && HeapOk(Merged(cells, p), ranges, head', foot')
    ensures MergedKept(cells, sizes, dv, dvsize, top, topsize, p)
  {
    MergedHeap(cells, ranges, head, foot, p, head', foot');
    MergedIsKept(cells, sizes, dv, dvsize, top, topsize, p);
    hide Tiled;
    hide Coalesced;
    hide Covering;
    hide Tagged;
    hide Merged;
    hide MergedKept;
  }

  // Where the allocator finds its free chunks once p is freed.
  ghost predicate MergedKept(cells: Cells, sizes: map<Addr, nat>, dv: Addr, dvsize: nat, top: Addr, topsize: nat,
                             p: Addr)
    requires CanFree(cells, p) && top in cells
  {
    var c, k, start, end := Merged(cells, p), MergedKind(cells, p), MergedStart(cells, p), MergedEnd(cells, p);
    && IsBinned(c, MergedSizes(cells, sizes, p))
    && (if k.Victim? then IsVictim(c, start, end - start)
        else if Back(cells, p) && start == dv then IsVictim(c, 0, 0)
        else IsVictim(c, dv, dvsize))
    && (if k.Top? then IsTop(c, start, end - start) && c[start].seg == cells[top].seg
        else IsTop(c, top, topsize) && top in c && c[top].seg == cells[top].seg)
    && start in c && c[start] == Cell(end - start, k, cells[start].prev, cells[p].seg)
  }

  lemma MergedHeap(cells: Cells, ranges: Ranges, head: map<Addr, Head>, foot: map<Addr, Foot>, p: Addr,
                   head': map<Addr, Head>, foot': map<Addr, Foot>)
    requires HeapOk(cells, ranges, head, foot) && p in cells && cells[p].kind.User?
    requires CanFree(cells, p) && After(cells, p) in head && MergedTags(cells, p, head, foot, head', foot')
    ensures Blocks(Merged(cells, p)) == Blocks(cells) - {p} && HeapOk(Merged(cells, p), ranges, head', foot')
  {
    hide SameTags;
    hide Tagged;
    hide Covering;
    hide AllFit;
    hide Ordered;
    hide Chained;
    hide Coalesced;
    hide Freeable;
    var back, fwd, k := Back(cells, p), Fwd(cells, p), MergedKind(cells, p);
    FreeableAsMerged(cells, p);
    MergedTagsSame(cells, p, head, foot, head', foot');
    MergedEndHead(cells, ranges, head, foot, p, head', foot');
    FreedOk(cells, ranges, head, foot, p, back, fwd, k, head', foot');
    FreedBlocks(cells, p, back, fwd, k);
    hide Freed;
  }

  lemma MergedIsKept(cells: Cells, sizes: map<Addr, nat>, dv: Addr, dvsize: nat, top: Addr, topsize: nat, p: Addr)
    requires Tiled(cells) && Coalesced(cells) && CanFree(cells, p)
    requires IsBinned(cells, sizes) && IsVictim(cells, dv, dvsize) && IsTop(cells, top, topsize)
    ensures MergedKept(cells, sizes, dv, dvsize, top, topsize, p)
  {
    hide Tiled;
    hide Coalesced;
    hide Freed;
    hide Freeable;
    hide IsBinned;
    var back, fwd, k := Back(cells, p), Fwd(cells, p), MergedKind(cells, p);
    FreeableAsMerged(cells, p);
    FreedShape(cells, p, back, fwd, k);
    KeptFreed(cells, sizes, dv, dvsize, top, topsize, p, back, fwd, k);
  }

  lemma MergedEndHead(cells: Cells, ranges: Ranges, head: map<Addr, Head>, foot: map<Addr, Foot>, p: Addr,
                      head': map<Addr, Head>, foot': map<Addr, Foot>)
    requires HeapOk(cells, ranges, head, foot) && p in cells && cells[p].kind.User?
    requires CanFree(cells, p) && After(cells, p) in head && MergedTags(cells, p, head, foot, head', foot')
    ensures var start, end := MergedStart(cells, p), MergedEnd(cells, p);
      && start in head' && head'[start] == Head(end - start, false, true)
      && (IsFree(MergedKind(cells, p)) ==> end in foot' && foot'[end] == Size(end - start))
      && (IsFree(MergedKind(cells, p)) ==> end in head && end in head' && head'[end] == head[end].(pinuse := false))
  {
    UsedTags(cells, ranges, head, foot, p);
  }

  // ------------------------------------------------------------------ chunks in use are cut

  lemma KeptSplitUsed(cells: Cells, sizes: map<Addr, nat>, dv: Addr, dvsize: nat, top: Addr, topsize: nat,
                      p: Addr, nb: nat, k1: Kind, k2: Kind)
    requires IsBinned(cells, sizes) && IsVictim(cells, dv, dvsize) && IsTop(cells, top, topsize)
    requires p in cells && cells[p].kind.User? && k1.User? && k2.User? && After(cells, p) in cells
    requires 0 < nb < cells[p].size && p + nb !in cells
    ensures var c := Split(cells, p, nb, k1, k2);
      && IsBinned(c, sizes) && IsVictim(c, dv, dvsize) && IsTop(c, top, topsize) && c[top].seg == cells[top].seg
      && Blocks(c) == Blocks(cells)[p := Block(k1.req, nb)][p + nb := Block(k2.req, cells[p].size - nb)]
  {
  }

  // The request a chunk was handed out for is replaced.
  lemma RequestChanged(cells: Cells, ranges: Ranges, head: map<Addr, Head>, foot: map<Addr, Foot>,
                       sizes: map<Addr, nat>, dv: Addr, dvsize: nat, top: Addr, topsize: nat, p: Addr, req: nat)
    requires State(cells, ranges, head, foot, sizes, dv, dvsize, top, topsize) && p in cells && cells[p].kind.User?
    requires cells[p].size >= LeastSize(User(req))
    ensures State(WithKind(cells, p, User(req)), ranges, head, foot, sizes, dv, dvsize, top, topsize)
    ensures Blocks(WithKind(cells, p, User(req))) == Blocks(cells)[p := Block(req, cells[p].size)]
    ensures top in cells && WithKind(cells, p, User(req))[top].seg == cells[top].seg
  {
    hide Tiled;
    hide Coalesced;
    hide Covering;
    hide Tagged;
    hide LeastSize;
    WithKindTiled(cells, ranges, p, User(req));
    RequestTags(cells, head, foot, p, req);
    BlocksWithKind(cells, p, User(req));
  }

  lemma RequestTags(cells: Cells, head: map<Addr, Head>, foot: map<Addr, Foot>, p: Addr, req: nat)
    requires Coalesced(cells) && Tagged(cells, head, foot) && p in cells && cells[p].kind.User?
    ensures Coalesced(WithKind(cells, p, User(req))) && Tagged(WithKind(cells, p, User(req)), head, foot)
  {
    var c := WithKind(cells, p, User(req));
    forall q | q in c && !c[q].kind.Tail? ensures Apart(c, q) && HeadAt(c, head, q) {
      assert Apart(cells, q) && HeadAt(cells, head, q);
    }
    forall q | q in c && IsFree(c[q].kind) ensures FootAt(c, foot, q) {
      assert FootAt(cells, foot, q);
    }
  }

  // ------------------------------------------------------------- a chunk grows into the top

  function TopShifted(cells: Cells, p: Addr, nb: nat, req: nat): Cells
    requires p in cells && After(cells, p) in cells && After(cells, After(cells, p)) in cells
    requires nb < cells[p].size + cells[After(cells, p)].size
    requires After(cells, p) != After(cells, After(cells, p)) && p != After(cells, After(cells, p))
  {
    Split(Join(cells, p, User(req)), p, nb, User(req), Top)
  }

  // The chunk before the top can grow to nb bytes.
  ghost predicate CanGrow(cells: Cells, p: Addr, nb: nat, req: nat) {
    && p in cells && cells[p].kind.User? && After(cells, p) in cells && cells[After(cells, p)].kind.Top?
    && nb % 8 == 0 && nb >= LeastSize(User(req)) && nb < cells[p].size + cells[After(cells, p)].size
  }

  lemma GrowAround(cells: Cells, p: Addr, nb: nat, req: nat)
    requires Tiled(cells) && Coalesced(cells) && CanGrow(cells, p, nb, req)
    ensures var n := After(cells, p);
      && Follows(cells, p) && Follows(cells, n) && 0 < p < n < After(cells, n) && cells[After(cells, n)].kind.Tail?
      && cells[After(cells, n)].size == TOP_FOOT_SIZE && nb + 8 <= cells[p].size + cells[n].size
  {
    FreeableAround(cells, p);
    assert Fits(p, cells[p]) && Fits(After(cells, p), cells[After(cells, p)]);
  }

  lemma GrowTiled(cells: Cells, ranges: Ranges, p: Addr, nb: nat, req: nat)
    requires Tiled(cells) && Coalesced(cells) && Covering(cells, ranges) && CanGrow(cells, p, nb, req)
    requires Follows(cells, p) && Follows(cells, After(cells, p)) &&
      0 < p < After(cells, p) < After(cells, After(cells, p))
    requires nb + 8 <= cells[p].size + cells[After(cells, p)].size
    ensures var c, n := TopShifted(cells, p, nb, req), After(cells, p);
      && Tiled(c) && Covering(c, ranges) && p + nb !in Join(cells, p, User(req))
      && SameBeyond(cells, c, {p, n, p + nb, After(cells, n)})
  {
    hide AllFit;
    hide Ordered;
    hide Chained;
    hide Covering;
    hide SameBeyond;
    var c1, n := Join(cells, p, User(req)), After(cells, p);
    var m := After(cells, n);
    JoinTiled(cells, ranges, p, User(req));
    JoinBeyond(cells, p, User(req));
    SplitTiled(c1, ranges, p, nb, User(req), Top);
    SplitBeyond(c1, p, nb, User(req), Top);
    SameBeyondTwice(cells, c1, TopShifted(cells, p, nb, req), {p, n, m}, {p, p + nb, m});
    SameBeyondMore(cells, TopShifted(cells, p, nb, req), {p, n, m} + {p, p + nb, m}, {p, n, p + nb, m});
  }

  lemma GrowShape(cells: Cells, p: Addr, nb: nat, req: nat)
    requires CanGrow(cells, p, nb, req)
    requires Follows(cells, p) && Follows(cells, After(cells, p)) &&
      0 < p < After(cells, p) < After(cells, After(cells, p))
    requires nb > 0 && p + nb !in Join(cells, p, User(req))
    ensures var c, n, r := TopShifted(cells, p, nb, req), After(cells, p), p + nb;
      var m := After(cells, n);
      && p in c && c[p] == cells[p].(size := nb, kind := User(req)) && r in c && r != m && r != p
      && c[r] == Cell(m - r, Top, p, cells[p].seg) && m in c && c[m] == cells[m].(prev := r)
      && (forall x :: x in c <==> x == r || (x in cells && x != n))
      && (forall x :: x in c && x != p && x != r && x != m ==> c[x] == cells[x])
  {
  }

  lemma GrowApart(cells: Cells, p: Addr, nb: nat, req: nat)
    requires Ordered(cells) && Coalesced(cells) && CanGrow(cells, p, nb, req)
    requires Follows(cells, p) && Follows(cells, After(cells, p)) &&
      0 < p < After(cells, p) < After(cells, After(cells, p))
    requires cells[After(cells, After(cells, p))].kind.Tail? &&
      cells[After(cells, After(cells, p))].size == TOP_FOOT_SIZE
    requires nb > 0 && p + nb !in Join(cells, p, User(req)) && nb < cells[p].size + cells[After(cells, p)].size
    ensures Coalesced(TopShifted(cells, p, nb, req))
  {
    GrowShape(cells, p, nb, req);
    var c, n, r := TopShifted(cells, p, nb, req), After(cells, p), p + nb;
    hide TopShifted;
    forall q | q in c && !c[q].kind.Tail? ensures Apart(c, q) {
      if q != p && q != r {
        assert Apart(cells, q);
        assert q > p ==> After(cells, p) <= q;
        assert q > n ==> After(cells, n) <= q;
        assert After(cells, q) != r;
      }
    }
  }

  // The chunk grew, and the top shrank by as much.
  lemma GrowOk(cells: Cells, ranges: Ranges, head: map<Addr, Head>, foot: map<Addr, Foot>, p: Addr, nb: nat, req: nat,
               head': map<Addr, Head>)
    requires HeapOk(cells, ranges, head, foot) && CanGrow(cells, p, nb, req) && p in head
    requires var total := cells[p].size + cells[After(cells, p)].size;
      head' == head[p := Head(nb, true, head[p].pinuse)][p + nb := Head(total - nb, false, true)]
    ensures Follows(cells, p) && Follows(cells, After(cells, p)) &&
      0 < p < After(cells, p) < After(cells, After(cells, p))
    ensures nb > 0 && p + nb !in Join(cells, p, User(req)) && cells[After(cells, After(cells, p))].kind.Tail?
    ensures HeapOk(TopShifted(cells, p, nb, req), ranges, head', foot)
  {
    GrowAround(cells, p, nb, req);
    GrowTiled(cells, ranges, p, nb, req);
    GrowApart(cells, p, nb, req);
    GrowTags(cells, head, foot, p, nb, req, head');
    hide AllFit;
    hide Ordered;
    hide Chained;
    hide Covering;
    hide Coalesced;
    hide Tagged;
    hide SameBeyond;
    hide TopShifted;
  }

  lemma GrowTags(cells: Cells, head: map<Addr, Head>, foot: map<Addr, Foot>, p: Addr, nb: nat, req: nat,
                 head': map<Addr, Head>)
    requires Tiled(cells) && Tagged(cells, head, foot) && CanGrow(cells, p, nb, req) && p in head
    requires Follows(cells, p) && Follows(cells, After(cells, p)) &&
      0 < p < After(cells, p) < After(cells, After(cells, p))
    requires cells[After(cells, After(cells, p))].kind.Tail?
    requires nb > 0 && p + nb !in Join(cells, p, User(req)) && nb < cells[p].size + cells[After(cells, p)].size
    requires var c, n := TopShifted(cells, p, nb, req), After(cells, p);
      SameBeyond(cells, c, {p, n, p + nb, After(cells, n)})
    requires var total := cells[p].size + cells[After(cells, p)].size;
      head' == head[p := Head(nb, true, head[p].pinuse)][p + nb := Head(total - nb, false, true)]
    ensures Tagged(TopShifted(cells, p, nb, req), head', foot)
  {
    hide LeastSize;
    hide SameBeyond;
    GrowShape(cells, p, nb, req);
    var c, n, r := TopShifted(cells, p, nb, req), After(cells, p), p + nb;
    assert HeadAt(cells, head, p);
    if cells[p].prev != 0 {
      assert Preceded(cells, p) && Fits(cells[p].prev, cells[cells[p].prev]);
    }
    hide TopShifted;
    Retagged(cells, c, head, foot, head', foot, {p, n, r, After(cells, n)});
  }

  lemma GrowKept(cells: Cells, sizes: map<Addr, nat>, dv: Addr, dvsize: nat, top: Addr, topsize: nat, p: Addr,
                 nb: nat, req: nat)
    requires IsBinned(cells, sizes) && IsVictim(cells, dv, dvsize) && IsTop(cells, top, topsize)
    requires CanGrow(cells, p, nb, req)
    requires Follows(cells, p) && Follows(cells, After(cells, p)) &&
      0 < p < After(cells, p) < After(cells, After(cells, p))
    requires cells[After(cells, After(cells, p))].kind.Tail?
    requires nb > 0 && p + nb !in Join(cells, p, User(req))
    ensures var c := TopShifted(cells, p, nb, req);
      && IsBinned(c, sizes) && IsVictim(c, dv, dvsize) && IsTop(c, p + nb, cells[p].size + topsize - nb)
      && Blocks(c) == Blocks(cells)[p := Block(req, nb)] && c[p + nb].seg == cells[top].seg
  {
    GrowShape(cells, p, nb, req);
    hide TopShifted;
    hide Join;
  }

  // The chunk behind the one being freed.
  lemma NextChunk(cells: Cells, ranges: Ranges, head: map<Addr, Head>, foot: map<Addr, Foot>, sizes: map<Addr, nat>,
                  dv: Addr, dvsize: nat, top: Addr, topsize: nat, p: Addr)
    requires State(cells, ranges, head, foot, sizes, dv, dvsize, top, topsize) && p in cells && cells[p].kind.User?
    ensures CanFree(cells, p) && After(cells, p) in head
    ensures var n, start := After(cells, p), MergedStart(cells, p);
      && head[n] == Head(cells[n].size, !Fwd(cells, p), true) && start > 0 && n > p >= start && p !in sizes
      && (start == dv <==> Back(cells, p) && cells[start].kind.Victim?)
      && (n == top ==> cells[n].kind.Top? && cells[n].size == topsize && n !in sizes)
      && (n == dv ==> cells[n].kind.Victim? && cells[n].size == dvsize && n !in sizes)
      && (Fwd(cells, p) && n != top && n != dv ==> cells[n].kind.Binned? && n in sizes && sizes[n] == cells[n].size)
      && (!Fwd(cells, p) ==> n !in sizes)
      && (start == dv && n != top ==> MergedKind(cells, p).Victim?)
      && (Fwd(cells, p) && !MergedKind(cells, p).Top? ==> var m := MergedEnd(cells, p); m in head && !head[m].pinuse)
    ensures top in cells
  {
    UsedTags(cells, ranges, head, foot, p);
    MergedVictim(cells, p, dv, dvsize);
    hide HeapOk;
  }

  // The chunk behind is the top: the result is the top.
  lemma MergedTop(cells: Cells, ranges: Ranges, head: map<Addr, Head>, foot: map<Addr, Foot>, sizes: map<Addr, nat>,
                  dv: Addr, dvsize: nat, top: Addr, topsize: nat, p: Addr, start: Addr, size: nat)
    requires State(cells, ranges, head, foot, sizes, dv, dvsize, top, topsize) && p in cells && cells[p].kind.User?
    requires CanFree(cells, p) && After(cells, p) == top && start == MergedStart(cells, p) &&
      size == top - start + topsize
    ensures var c := Merged(cells, p);
      && HeapOk(c, ranges, head[start := Head(size, false, true)], foot) && Blocks(c) == Blocks(cells) - {p}
      && IsBinned(c, sizes - {start}) && IsTop(c, start, size)
      && IsVictim(c, if start == dv then 0 else dv, if start == dv then 0 else dvsize)
      && top in cells && start in c && c[start].seg == cells[top].seg
  {
    hide HeapOk;
    hide IsBinned;
    hide IsVictim;
    hide IsTop;
    hide Merged;
    hide Blocks;
    NextChunk(cells, ranges, head, foot, sizes, dv, dvsize, top, topsize, p);
    MergedOk(cells, ranges, head, foot, sizes, dv, dvsize, top, topsize, p, head[start := Head(size, false, true)],
      foot);
    assert sizes - {start, top} == sizes - {start};
  }

  // The chunk behind is the victim: the result is the victim.
  lemma MergedVictimBehind(cells: Cells, ranges: Ranges, head: map<Addr, Head>, foot: map<Addr, Foot>,
                           sizes: map<Addr, nat>, dv: Addr, dvsize: nat, top: Addr, topsize: nat, p: Addr,
                           start: Addr, size: nat)
    requires State(cells, ranges, head, foot, sizes, dv, dvsize, top, topsize) && p in cells && cells[p].kind.User?
    requires CanFree(cells, p) && After(cells, p) == dv != 0 && start == MergedStart(cells, p) &&
      size == dv - start + dvsize
    ensures var c := Merged(cells, p);
      && HeapOk(c, ranges, head[start := Head(size, false, true)], foot[start + size := Size(size)]) &&
        Blocks(c) == Blocks(cells) - {p}
      && IsBinned(c, sizes - {start}) && IsVictim(c, start, size) && IsTop(c, top, topsize)
      && top in cells && top in c && c[top].seg == cells[top].seg
  {
    hide HeapOk;
    hide IsBinned;
    hide IsVictim;
    hide IsTop;
    hide Merged;
    hide Blocks;
    NextChunk(cells, ranges, head, foot, sizes, dv, dvsize, top, topsize, p);
    MergedOk(cells, ranges, head, foot, sizes, dv, dvsize, top, topsize, p,
             head[start := Head(size, false, true)], foot[start + size := Size(size)]);
    assert sizes - {start, dv} == sizes - {start};
  }

  // The chunk behind is binned, or in use: the result is the victim if it starts with that, and
  // otherwise goes to a bin. h is the tags, with the mark that the chunk before is in use cleared.
  lemma MergedFree(cells: Cells, ranges: Ranges, head: map<Addr, Head>, foot: map<Addr, Foot>, sizes: map<Addr, nat>,
                   dv: Addr, dvsize: nat, top: Addr, topsize: nat, p: Addr, start: Addr, end: Addr, h: map<Addr, Head>)
    requires State(cells, ranges, head, foot, sizes, dv, dvsize, top, topsize) && p in cells && cells[p].kind.User?
    requires CanFree(cells, p) && After(cells, p) != top && After(cells, p) != dv
    requires start == MergedStart(cells, p) && end == MergedEnd(cells, p)
    requires h == head || (end in head && h == head[end := head[end].(pinuse := false)])
    requires h == head ==> Fwd(cells, p)
    ensures start < end
    ensures var c, size := Merged(cells, p), end - start;
      && HeapOk(c, ranges, h[start := Head(size, false, true)], foot[end := Size(size)]) &&
        Blocks(c) == Blocks(cells) - {p}
      && (if start == dv then IsBinned(c, sizes - {start, After(cells, p)}) && IsVictim(c, start, size)
          else IsBinned(c, (sizes - {start, After(cells, p)})[start := size]) && IsVictim(c, dv, dvsize))
      && IsTop(c, top, topsize) && top in cells && top in c && c[top].seg == cells[top].seg
  {
    hide HeapOk;
    hide IsBinned;
    hide IsVictim;
    hide IsTop;
    hide Merged;
    hide Blocks;
    NextChunk(cells, ranges, head, foot, sizes, dv, dvsize, top, topsize, p);
    var h' := h[start := Head(end - start, false, true)];
    if Fwd(cells, p) {
      assert head[end] == head[end].(pinuse := false) && h == head;
    }
    MergedOk(cells, ranges, head, foot, sizes, dv, dvsize, top, topsize, p, h', foot[end := Size(end - start)]);
  }

  // ------------------------------------------------------- a segment is extended downwards

  // The new memory is one block, and a rest that is about to be freed.
  function Prepended(cells: Cells, base: Addr, first: Addr, nb: nat, req: nat): Cells
    requires first in cells && base + nb < first
  {
    Split(Extended(cells, base, first, User(req)), base, nb, User(req), User(0))
  }

  ghost predicate CanPrepend(cells: Cells, ranges: Ranges, base: Addr, first: Addr, nb: nat, req: nat) {
    && CanExtend(cells, ranges, base, first, User(req)) && Positive(cells) && first % 8 == 0
    && RoomFor(nb, req) && base + nb + MIN_CHUNK_SIZE <= first
  }

  lemma ExtendedShape(cells: Cells, base: Addr, first: Addr, k: Kind)
    requires first in cells && base < first
    ensures var c := Extended(cells, base, first, k);
      && base in c && c[base] == Cell(first - base, k, 0, cells[first].seg) && After(c, base) == first && first in c
      && forall q :: q in c ==> q == base || q in cells
  {
  }

  lemma PrependedHeads(c: Cells, h: map<Addr, Head>, a: Addr, x: Head, y: Head, b: Addr, z: Head)
    requires a != b
    ensures var h1, h2 := h[a := x], h[a := y][b := z];
      && a in h1 && h1[a] == x && a in h2 && h2[a] == y && b in h2 && h2[b] == z
      && forall q :: q in c && q != a && q != b && q in h1 ==> q in h2 && h2[q] == h1[q]
  {
  }

  lemma PrependedHeap(cells: Cells, ranges: Ranges, head: map<Addr, Head>, foot: map<Addr, Foot>,
                      base: Addr, first: Addr, nb: nat, req: nat)
    requires HeapOk(cells, ranges, head, foot) && CanPrepend(cells, ranges, base, first, nb, req)
    ensures var c, s, q, rest := Prepended(cells, base, first, nb, req), cells[first].seg, base + nb, first - base - nb;
      HeapOk(c, ranges[s := ranges[s].(lo := base)], head[base := Head(nb, true, true)][q := Head(rest, true, true)],
        foot)
  {
    var head1 := head[base := Head(first - base, true, true)];
    ExtendedOk(cells, ranges, head, foot, base, first, User(req), head1);
    var s := cells[first].seg;
    ExtendedCut(cells, ranges[s := ranges[s].(lo := base)], head, foot, base, first, nb, User(req));
    hide HeapOk;
    hide CanExtend;
    hide Extended;
  }

  lemma ExtendedCut(cells: Cells, ranges: Ranges, head: map<Addr, Head>, foot: map<Addr, Foot>,
                    base: Addr, first: Addr, nb: nat, k: Kind)
    requires first in cells && base < first && k.User? && nb % 8 == 0 && nb >= LeastSize(k) &&
      base + nb + MIN_CHUNK_SIZE <= first
    requires HeapOk(Extended(cells, base, first, k), ranges, head[base := Head(first - base, true, true)], foot)
    ensures var c, h := Split(Extended(cells, base, first, k), base, nb, k, User(0)),
                        head[base := Head(nb, true, true)][base + nb := Head(first - base - nb, true, true)];
      HeapOk(c, ranges, h, foot)
  {
    var c, x, y, z := Extended(cells, base, first, k), Head(first - base, true, true), Head(nb, true, true),
      Head(first - base - nb, true, true);
    ExtendedShape(cells, base, first, k);
    PrependedHeads(c, head, base, x, y, base + nb, z);
    CutExtended(c, ranges, head[base := x], head[base := y][base + nb := z], foot, base, nb, k);
    hide Extended;
    hide LeastSize;
    hide Split;
    hide HeapOk;
  }

  lemma CutExtended(c1: Cells, ranges: Ranges, head1: map<Addr, Head>, head2: map<Addr, Head>, foot: map<Addr, Foot>,
                    base: Addr, nb: nat, k: Kind)
    requires HeapOk(c1, ranges, head1, foot) && base in c1 && c1[base].kind == k && k.User? && After(c1, base) in c1
    requires base in head1 && head1[base].pinuse && nb % 8 == 0 && nb >= LeastSize(k) &&
      nb + MIN_CHUNK_SIZE <= c1[base].size
    requires forall q :: q in c1 && q != base && q != base + nb && q in head1 ==> q in head2 && head2[q] == head1[q]
    requires base in head2 && head2[base] == Head(nb, true, true)
    requires base + nb in head2 && head2[base + nb] == Head(c1[base].size - nb, true, true)
    ensures HeapOk(Split(c1, base, nb, k, User(0)), ranges, head2, foot)
  {
    SplitUsedOk(c1, ranges, head1, foot, base, nb, k, User(0), head2, foot);
    hide HeapOk;
  }

  lemma PrependedKept(cells: Cells, ranges: Ranges, sizes: map<Addr, nat>, dv: Addr, dvsize: nat, top: Addr,
                      topsize: nat, base: Addr, first: Addr, nb: nat, req: nat)
    requires CanPrepend(cells, ranges, base, first, nb, req)
    requires IsBinned(cells, sizes) && IsVictim(cells, dv, dvsize) && IsTop(cells, top, topsize)
    ensures var c, s, q, rest := Prepended(cells, base, first, nb, req), cells[first].seg, base + nb, first - base - nb;
      && IsBinned(c, sizes) && IsVictim(c, dv, dvsize) && IsTop(c, top, topsize)
      && Blocks(c) - {q} == Blocks(cells)[base := Block(req, nb)] && base !in cells
      && q in c && c[q] == Cell(rest, User(0), base, s) && base in c && c[base].kind.User?
      && top in cells && top in c && c[top].seg == cells[top].seg
  {
    hide IsBinned;
    hide IsVictim;
    var c1, k, q := Extended(cells, base, first, User(req)), User(req), base + nb;
    NewBase(cells, base, first);
    ExtendedKept(cells, sizes, dv, dvsize, top, topsize, base, first, k);
    assert After(c1, base) == first && q !in c1;
    KeptSplitUsed(c1, sizes, dv, dvsize, top, topsize, base, nb, k, User(0));
    WithoutNew(Blocks(cells), base, Block(k.req, first - base), Block(k.req, nb), q, Block(0, first - base - nb));
  }

  lemma WithoutNew(blocks: map<Addr, Block>, a: Addr, x: Block, y: Block, b: Addr, z: Block)
    requires b !in blocks && a != b
    ensures blocks[a := x][a := y][b := z] - {b} == blocks[a := y]
  {
  }

  lemma NewBase(cells: Cells, base: Addr, first: Addr)
    requires Positive(cells) && Unused(cells, base, first) && base < first
    ensures forall q :: base <= q < first ==> q !in cells
  {
  }
}
