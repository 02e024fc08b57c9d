/** lj_alloc_malloc, lj_alloc_free and lj_alloc_realloc on the boundary tags of the chunks. */
module Allocator {
  import opened AllocBins
  import opened AllocFree
  import opened AllocHeap
  import opened AllocLinks
  import opened AllocMapping
  import opened AllocMaps
  import opened AllocSearch
  import opened AllocSegments
  import opened AllocSizes
  import opened AllocStock

  const MSTATE_SIZE := 872   // pad_request(sizeof(struct malloc_state))

  const MEM_OFFSET := 16     // from a chunk to the user's memory
  const SEG_OFFSET := 856    // where the current segment record lies behind the start of the first segment

  // The blocks of the user, given those in segments. A direct chunk has one word more of overhead.
  ghost function LiveOf(blocks: map<Addr, Block>, direct: map<Addr, Mapped>, asked: map<Addr, nat>): map<Addr, Block> {
    blocks + map p | p in direct && p in asked ::
      Block(asked[p], if direct[p].psize < 8 then 0 else direct[p].psize - 8)
  }

  lemma LiveOfMore(blocks: map<Addr, Block>, direct: map<Addr, Mapped>, asked: map<Addr, nat>, p: Addr, b: Block)
    requires p !in direct
    ensures LiveOf(blocks[p := b], direct, asked) == LiveOf(blocks, direct, asked)[p := b]
    ensures LiveOf(blocks - {p}, direct, asked) == LiveOf(blocks, direct, asked) - {p}
  {
  }

  // A direct chunk is mapped, or resized.
  lemma LiveOfDirect(blocks: map<Addr, Block>, direct: map<Addr, Mapped>, asked: map<Addr, nat>,
                     p: Addr, d: Mapped, req: nat)
    ensures LiveOf(blocks, direct[p := d], asked[p := req]) ==
      LiveOf(blocks, direct, asked)[p := Block(req, if d.psize < 8 then 0 else d.psize - 8)]
    ensures p in LiveOf(blocks, direct, asked) <==> p in blocks || (p in direct && p in asked)
  {
  }

  function ByteAt(bytes: map<Addr, int>, a: Addr): int {
    if a in bytes then bytes[a] else 0
  }

  function Min(a: nat, b: nat): nat {
    if a < b then a else b
  }

  // The bytes of a block the user may use.
  function Usable(b: Block): nat {
    if b.size < CHUNK_OVERHEAD then 0 else b.size - CHUNK_OVERHEAD
  }

  // The n bytes at this address.
  function Data(bytes: map<Addr, int>, a: Addr, n: nat): seq<int> {
    seq(n, k requires 0 <= k < n => ByteAt(bytes, a + k))
  }

  // Only bytes between lo and hi differ.
  ghost predicate SameData(bytes: map<Addr, int>, bytes': map<Addr, int>, lo: Addr, hi: Addr) {
    forall a :: !(lo <= a < hi) ==> ByteAt(bytes', a) == ByteAt(bytes, a)
  }

  lemma DataGrows(bytes: map<Addr, int>, a: Addr, n: nat)
    ensures Data(bytes, a, n + 1) == Data(bytes, a, n) + [ByteAt(bytes, a + n)]
  {
  }

  lemma DataElsewhere(bytes: map<Addr, int>, a: Addr, n: nat, x: Addr, v: int)
    requires !(a <= x < a + n)
    ensures Data(bytes[x := v], a, n) == Data(bytes, a, n)
  {
    forall k | 0 <= k < n ensures Data(bytes[x := v], a, n)[k] == Data(bytes, a, n)[k] {
      assert ByteAt(bytes[x := v], a + k) == ByteAt(bytes, a + k);
    }
  }

  class Arena {
    var head: map<Addr, Head>
    var foot: map<Addr, Foot>
    const bins: Bins
    var dv: Addr
    var dvsize: nat
    var top: Addr
    var topsize: nat
    var trimCheck: nat
    var releaseChecks: nat
    var segs: seq<Segment>                // the current segment first
    var direct: map<Addr, Mapped>
    var bytes: map<Addr, int>             // the user's data
    ghost var cells: Cells
    ghost var ranges: Ranges
    ghost var ids: seq<nat>
    ghost var asked: map<Addr, nat>       // what the direct chunks were requested for
    ghost var log: seq<Call>              // the calls to the system

    ghost predicate Valid()
      reads this, bins
    {
      HeapOk(cells, ranges, head, foot) && bins.Valid() && Kept() && MappingOk()
    }

    // The free chunks are where the allocator looks for them.
    ghost predicate Kept()
      reads this, bins
    {
      IsBinned(cells, bins.sizes) && IsVictim(cells, dv, dvsize) && IsTop(cells, top, topsize)
    }

    ghost function Now(): Stock
      reads this, bins
    {
      Stock(bins.sizes, dv, dvsize, top, topsize, trimCheck, releaseChecks)
    }

    // The mapped regions, and the top in the current one.
    ghost predicate MappingOk()
      reads this
    {
      && SegsOk(segs, ids, ranges) && DirectOk(direct, asked, ranges)
      && top in cells && cells[top].seg == ids[0]
    }

    // lj_alloc_create on a newly mapped region.
    constructor (tbase: Addr)
      requires tbase > 0 && tbase % 8 == 0 && tbase + DEFAULT_GRANULARITY <= LIMIT
      ensures Valid() && fresh(bins) && Blocks(cells) == map[] && direct == map[] && log == []
      ensures segs == [Segment(tbase, 0x2_0000, tbase + SEG_OFFSET)]
      ensures Now() == Stock(map[], 0, 0, tbase + MSTATE_SIZE, 0x2_0000 - MSTATE_SIZE - TOP_FOOT_SIZE, 0x20_0000, 255)
    {
      hide HeapOk;
      hide Bins.Valid;
      hide IsBinned;
      hide IsVictim;
      hide Blocks;
      var tsize := DEFAULT_GRANULARITY;
      bins := new Bins();
      segs, ids, direct, asked, bytes := [Segment(tbase, tsize, tbase + SEG_OFFSET)], [0], map[], map[], map[];
      trimCheck, releaseChecks, log := DEFAULT_TRIM_THRESHOLD, MAX_RELEASE_CHECK_RATE, [];
      head := map[tbase := Head(MSTATE_SIZE, true, true)];
      foot := map[];
      dv, dvsize := 0, 0;
      top := tbase + MSTATE_SIZE;
      topsize := tsize - MSTATE_SIZE - TOP_FOOT_SIZE;
      cells, ranges := Created(tbase, tsize, MSTATE_SIZE), map[0 := Range(tbase, tbase + tsize)];
      new;
      head := head[top := Head(topsize, false, true)];
      head := head[top + topsize := Head(TOP_FOOT_SIZE, false, false)];
      CreatedOk(tbase, tsize, MSTATE_SIZE, head, foot);
    }

    // ---------------------------------------------------------------------- tags

    // The heads of memory nobody wrote to hold anything.
    function HeadOf(p: Addr): Head
      reads this
    {
      if p in head then head[p] else Head(0, false, false)
    }

    function ChunkSizes(): map<Addr, nat>
      reads this
    {
      map p | p in head :: head[p].size
    }

    // set_inuse_and_pinuse.
    method SetInuseAndPinuse(p: Addr, s: nat)
      modifies `head
      ensures head == old(head)[p := Head(s, true, true)][p + s :=
        (if s == 0 then Head(s, true, true) else old(HeadOf(p + s))).(pinuse := true)]
    {
      head := head[p := Head(s, true, true)];
      head := head[p + s := HeadOf(p + s).(pinuse := true)];
    }

    // set_size_and_pinuse_of_inuse_chunk.
    method SetInuseHead(p: Addr, s: nat)
      modifies `head
      ensures head == old(head)[p := Head(s, true, true)]
    {
      head := head[p := Head(s, true, true)];
    }

    // set_size_and_pinuse_of_free_chunk.
    method SetFree(p: Addr, s: nat)
      modifies `head, `foot
      ensures head == old(head)[p := Head(s, false, true)] && foot == old(foot)[p + s := Size(s)]
    {
      head := head[p := Head(s, false, true)];
      foot := foot[p + s := Size(s)];
    }

    // ---------------------------------------------------------------------- bins

    // insert_chunk.
    method InsertChunk(p: Addr, size: nat)
      requires bins.Valid() && p > 0 && p !in bins.sizes && ChunkSize(size)
      requires forall y :: y in bins.sizes ==> y in head && head[y].size == bins.sizes[y]
      modifies bins
      ensures bins.Valid() && bins.sizes == old(bins.sizes)[p := size]
    {
      if IsSmall(size) {
        bins.InsertSmall(p, size);
      } else {
        bins.InsertLarge(p, size, ChunkSizes());
      }
    }

    // unlink_chunk.
    method UnlinkChunk(p: Addr, size: nat)
      requires bins.Valid() && p in bins.sizes && size == bins.sizes[p]
      modifies bins
      ensures bins.Valid() && bins.sizes == old(bins.sizes) - {p}
    {
      if IsSmall(size) {
        bins.UnlinkSmall(p, size);
      } else {
        bins.UnlinkLarge(p);
      }
    }

    // What the state says about a binned chunk.
    lemma BinnedChunk(p: Addr)
      requires Valid() && p in bins.sizes
      ensures p in cells && cells[p].kind.Binned? && cells[p].size == bins.sizes[p]
      ensures p > 0 && ChunkSize(bins.sizes[p]) && Follows(cells, p)
    {
      FreeNeighbours(cells, head, foot, p);
      InItsBin(bins.mem, bins.small, bins.tree, bins.sizes, p);
    }

    // ------------------------------------------------------------------- malloc

    // A free chunk, already taken out of its bin, is handed out as a whole.
    method HandOut(p: Addr, s: nat, ghost req: nat)
      requires HeapOk(cells, ranges, head, foot) && bins.Valid() && MappingOk() && p !in bins.sizes
      requires IsBinned(cells, bins.sizes[p := s]) && IsVictim(cells, dv, dvsize) && IsTop(cells, top, topsize)
      requires p in cells && cells[p].kind.Binned? && cells[p].size == s && s >= LeastSize(User(req))
      modifies this`head, this`cells
      ensures Valid() && Blocks(cells) == old(Blocks(cells))[p := Block(req, s)]
    {
      hide Bins.Valid;
      hide HeapOk;
      hide SegsOk;
      hide DirectOk;
      HandOutOk(p, req);
      KeptUse(cells, bins.sizes[p := s], dv, dvsize, top, topsize, p, User(req));
      BlocksWithKind(cells, p, User(req));
      assert bins.sizes[p := s] - {p} == bins.sizes;
      SetInuseAndPinuse(p, s);
      cells := WithKind(cells, p, User(req));
    }

    lemma HandOutOk(p: Addr, req: nat)
      requires HeapOk(cells, ranges, head, foot) && p in cells && IsFree(cells[p].kind)
      requires cells[p].size >= LeastSize(User(req))
      ensures cells[p].size > 0
      ensures var s := cells[p].size;
        HeapOk(WithKind(cells, p, User(req)), ranges,
          head[p := Head(s, true, true)][p + s := HeadOf(p + s).(pinuse := true)], foot)
    {
      hide AllFit, Ordered, Chained, Coalesced, Covering;
      var s := cells[p].size;
      FreeNeighbours(cells, head, foot, p);
      UseOk(cells, ranges, head, foot, p, User(req),
        head[p := Head(s, true, true)][p + s := HeadOf(p + s).(pinuse := true)], foot);
    }

    // The first nb bytes of a free chunk, already taken out of its bin, are handed out, and the rest
    // becomes the designated victim; an earlier victim, which is small, goes to a bin (replace_dv).
    method HandOutReplacing(p: Addr, s: nat, nb: nat, ghost req: nat)
      requires HeapOk(cells, ranges, head, foot) && bins.Valid() && MappingOk() && p !in bins.sizes
      requires IsBinned(cells, bins.sizes[p := s]) && IsVictim(cells, dv, dvsize) && IsTop(cells, top, topsize)
      requires p in cells && cells[p].kind.Binned? && cells[p].size == s && nb >= LeastSize(User(req)) && nb % 8 == 0
      requires nb + MIN_CHUNK_SIZE <= s && IsSmall(dvsize)
      modifies this`head, this`foot, this`cells, this`dv, this`dvsize, bins
      ensures Valid() && Blocks(cells) == old(Blocks(cells))[p := Block(req, nb)]
      ensures dv == p + nb && dvsize == s - nb
      ensures bins.sizes == if old(dv) == 0 then old(bins.sizes) else old(bins.sizes)[old(dv) := old(dvsize)]
    {
      hide HeapOk;
      hide SegsOk;
      hide DirectOk;
      hide IsBinned;
      hide IsVictim;
      hide IsTop;
      hide LeastSize;
      hide Bins.Valid;
      hide Blocks;
      hide Replaced;
      hide RoomFor;
      hide IsSmall;
      ReplacedOk(p, s, nb, req);
      ghost var cells' := Replaced(cells, dv, p, nb, req);
      var rsize := s - nb;
      SetInuseHead(p, nb);
      var r := p + nb;
      SetFree(r, rsize);
      var dvs := dvsize;
      if dvs != 0 {
        bins.InsertSmall(dv, dvs);
      }
      dvsize := rsize;
      dv := r;
      cells := cells';
    }

    ghost function Replaced(c: Cells, v: Addr, p: Addr, nb: nat, req: nat): Cells
      requires (v != 0 ==> v in c) && p in c && nb < c[p].size && After(c, p) in c
    {
      Split(Retired(c, v), p, nb, User(req), Victim)
    }

    lemma ReplacedOk(p: Addr, s: nat, nb: nat, req: nat)
      requires HeapOk(cells, ranges, head, foot) && p !in bins.sizes
      requires IsBinned(cells, bins.sizes[p := s]) && IsVictim(cells, dv, dvsize) && IsTop(cells, top, topsize)
      requires p in cells && cells[p].kind.Binned? && cells[p].size == s && nb >= LeastSize(User(req)) && nb % 8 == 0
      requires nb + MIN_CHUNK_SIZE <= s
      ensures (dv != 0 ==> dv in cells && dv > 0 && dv !in bins.sizes && ChunkSize(dvsize)) &&
        (dv == 0 <==> dvsize == 0)
      ensures nb < s && After(cells, p) in cells
      ensures var c, r, rest := Replaced(cells, dv, p, nb, req), p + nb, s - nb;
        && HeapOk(c, ranges, head[p := Head(nb, true, true)][r := Head(rest, false, true)],
          foot[r + rest := Size(rest)])
        && IsBinned(c, if dv == 0 then bins.sizes else bins.sizes[dv := dvsize])
        && IsVictim(c, r, rest) && IsTop(c, top, topsize) && Blocks(c) == Blocks(cells)[p := Block(req, nb)]
        && top in cells && top in c && c[top].seg == cells[top].seg
    {
      hide HeapOk;
      hide SegsOk;
      hide DirectOk;
      var sizes, cells1 := bins.sizes, Retired(cells, dv);
      var sizes1: map<Addr, nat> := if dv == 0 then sizes[p := s] else sizes[p := s][dv := dvsize];
      RetiredOk(sizes[p := s]);
      SplitFromOk(cells1, p, nb, User(req), Victim);
      VictimFits();
      KeptSplit(cells1, sizes1, 0, 0, top, topsize, p, nb, User(req), Victim);
      BlocksSplit(cells1, p, nb, User(req), Victim);
      assert sizes1 - {p} == if dv == 0 then sizes else sizes[dv := dvsize];
    }

    // The cells once the victim went to a bin.
    ghost function Retired(c: Cells, v: Addr): Cells
      requires v != 0 ==> v in c
    {
      if v == 0 then c else WithKind(c, v, Binned)
    }

    lemma RetiredOk(sizes: map<Addr, nat>)
      requires HeapOk(cells, ranges, head, foot)
      requires IsBinned(cells, sizes) && IsVictim(cells, dv, dvsize) && IsTop(cells, top, topsize)
      ensures var c := Retired(cells, dv);
        && HeapOk(c, ranges, head, foot) && IsBinned(c, if dv == 0 then sizes else sizes[dv := dvsize])
        && IsVictim(c, 0, 0) && IsTop(c, top, topsize) && Blocks(c) == Blocks(cells)
    {
      if dv != 0 {
        RetireOk(cells, ranges, head, foot, dv, Binned);
        KeptRetire(cells, sizes, dv, dvsize, top, topsize);
        BlocksWithKind(cells, dv, Binned);
      }
    }

    // The victim could go to a bin.
    lemma VictimFits()
      requires HeapOk(cells, ranges, head, foot) && IsVictim(cells, dv, dvsize)
      ensures dv != 0 ==> dv > 0 && ChunkSize(dvsize)
    {
      if dv != 0 {
        assert Fits(dv, cells[dv]);
      }
    }

    lemma SplitFromOk(c: Cells, p: Addr, nb: nat, k: Kind, k2: Kind)
      requires HeapOk(c, ranges, head, foot) && p in c && IsFree(c[p].kind) && InUse(k) && IsFree(k2)
      requires nb % 8 == 0 && LeastSize(k) <= nb && nb + MIN_CHUNK_SIZE <= c[p].size
      ensures 0 < nb < c[p].size && p > 0 && Follows(c, p) && p + nb !in c
      ensures var rest := c[p].size - nb;
        HeapOk(Split(c, p, nb, k, k2), ranges, head[p := Head(nb, true, true)][p + nb := Head(rest, false, true)],
               foot[p + nb + rest := Size(rest)])
    {
      hide AllFit;
      hide Ordered;
      hide Coalesced;
      hide Covering;
      hide Tagged;
      hide LeastSize;
      LeastPositive(k);
      LeastPositive(k2);
      var rest := c[p].size - nb;
      FreeNeighbours(c, head, foot, p);
      SplitTiled(c, ranges, p, nb, k, k2);
      forall q | q in c && IsFree(c[q].kind) && q != p ensures After(c, q) != After(c, p) {
        assert Follows(c, q);
      }
      SplitFreeOk(c, ranges, head, foot, p, nb, k, k2,
        head[p := Head(nb, true, true)][p + nb := Head(rest, false, true)],
                  foot[p + nb + rest := Size(rest)]);
    }

    lemma HeadsAgree()
      requires HeapOk(cells, ranges, head, foot) && forall y :: y in bins.sizes ==> y in cells && cells[y].kind.Binned?
      requires IsBinned(cells, bins.sizes)
      ensures SameSizes(ChunkSizes(), bins.sizes)
    {
      forall y | y in bins.sizes ensures y in head && head[y].size == bins.sizes[y] {
        assert HeadAt(cells, head, y);
      }
    }

    // The first nb bytes of a free chunk, already taken out of its bin, are handed out, and the rest
    // goes to a bin.
    method HandOutBinning(p: Addr, s: nat, nb: nat, ghost req: nat)
      requires HeapOk(cells, ranges, head, foot) && bins.Valid() && MappingOk() && p !in bins.sizes
      requires IsBinned(cells, bins.sizes[p := s]) && IsVictim(cells, dv, dvsize) && IsTop(cells, top, topsize)
      requires p in cells && cells[p].kind.Binned? && cells[p].size == s && nb >= LeastSize(User(req)) && nb % 8 == 0
      requires nb + MIN_CHUNK_SIZE <= s
      modifies this`head, this`foot, this`cells, bins
      ensures Valid() && Blocks(cells) == old(Blocks(cells))[p := Block(req, nb)]
      ensures bins.sizes == old(bins.sizes)[p + nb := s - nb]
    {
      hide Bins.Valid;
      hide HeapOk;
      hide SegsOk;
      hide DirectOk;
      hide IsBinned;
      hide IsVictim;
      hide IsTop;
      hide LeastSize;
      CarvedOk(p, s, nb, req);
      ghost var cells' := Split(cells, p, nb, User(req), Binned);
      var rsize := s - nb;
      var r := p + nb;
      SetInuseHead(p, nb);
      SetFree(r, rsize);
      InsertChunk(r, rsize);
      cells := cells';
    }

    lemma CarvedOk(p: Addr, s: nat, nb: nat, req: nat)
      requires HeapOk(cells, ranges, head, foot) && p !in bins.sizes
      requires IsBinned(cells, bins.sizes[p := s]) && IsVictim(cells, dv, dvsize) && IsTop(cells, top, topsize)
      requires p in cells && cells[p].kind.Binned? && cells[p].size == s && nb >= LeastSize(User(req)) && nb % 8 == 0
      requires nb + MIN_CHUNK_SIZE <= s
      ensures nb < s && After(cells, p) in cells && p + nb > 0 && p + nb !in bins.sizes && ChunkSize(s - nb)
      ensures forall y :: y in bins.sizes ==> y != p && y != p + nb && y in head && head[y].size == bins.sizes[y]
      ensures var c, r, rest := Split(cells, p, nb, User(req), Binned), p + nb, s - nb;
        && HeapOk(c, ranges, head[p := Head(nb, true, true)][r := Head(rest, false, true)],
          foot[r + rest := Size(rest)])
        && IsBinned(c, bins.sizes[r := rest])
        && IsVictim(c, dv, dvsize) && IsTop(c, top, topsize) && Blocks(c) == Blocks(cells)[p := Block(req, nb)]
        && top in cells && top in c && c[top].seg == cells[top].seg
    {
      hide HeapOk;
      hide Blocks;
      hide LeastSize;
      var sizes := bins.sizes;
      SplitFromOk(cells, p, nb, User(req), Binned);
      KeptSplit(cells, sizes[p := s], dv, dvsize, top, topsize, p, nb, User(req), Binned);
      BlocksSplit(cells, p, nb, User(req), Binned);
      var before: map<Addr, nat> := sizes[p := s];
      assert before - {p} == sizes;
      BinnedHeads(cells, ranges, head, foot, before);
      BinnedFits(p, s);
    }

    // The designated victim is split, or used up.
    method FromVictim(nb: nat, ghost req: nat) returns (p: Addr)
      requires Valid() && dv != 0 && nb <= dvsize && nb >= LeastSize(User(req)) && nb % 8 == 0
      modifies this`head, this`foot, this`cells, this`dv, this`dvsize
      ensures Valid() && p !in old(Blocks(cells)) && p in cells && cells[p].size >= nb && p > 0
      ensures Blocks(cells) == old(Blocks(cells))[p := Block(req, cells[p].size)]
      ensures VictimUsed(p, nb, old(Now()), Now())
    {
      hide Bins.Valid;
      hide HeapOk;
      hide SegsOk;
      hide DirectOk;
      hide Blocks;
      VictimBounds();
      var rsize := dvsize - nb;
      p := dv;
      if rsize >= MIN_CHUNK_SIZE {
        SplitVictim(nb, req);
      } else {
        UseVictim(req);
      }
    }

    method SplitVictim(nb: nat, ghost req: nat)
      requires Valid() && dv != 0 && nb + MIN_CHUNK_SIZE <= dvsize && nb >= LeastSize(User(req)) && nb % 8 == 0
      modifies this`head, this`foot, this`cells, this`dv, this`dvsize
      ensures Valid() && HandedAt(old(dv), nb, req, old(Blocks(cells)))
      ensures dv == old(dv) + nb && dvsize == old(dvsize) - nb
    {
      hide Bins.Valid;
      hide HeapOk;
      hide SegsOk;
      hide DirectOk;
      hide IsBinned;
      hide IsTop;
      hide Blocks;
      hide LeastSize;
      var p, rsize := dv, dvsize - nb;
      SplitFromOk(cells, p, nb, User(req), Victim);
      KeptSplit(cells, bins.sizes, dv, dvsize, top, topsize, p, nb, User(req), Victim);
      BlocksSplit(cells, p, nb, User(req), Victim);
      TwoWrites(head, p, Head(nb, true, true), p + nb, Head(rsize, false, true));
      VictimNotBinned();
      NewBlock(cells, p, req, nb);
      ghost var cells' := Split(cells, p, nb, User(req), Victim);
      var r := p + nb;
      dv := r;
      dvsize := rsize;
      SetFree(r, rsize);
      SetInuseHead(p, nb);
      cells := cells';
    }

    method UseVictim(ghost req: nat)
      requires Valid() && dv != 0 && dvsize >= LeastSize(User(req))
      modifies this`head, this`cells, this`dv, this`dvsize
      ensures Valid() && HandedAt(old(dv), old(dvsize), req, old(Blocks(cells)))
      ensures dv == 0 && dvsize == 0
    {
      hide Bins.Valid;
      hide HeapOk;
      hide SegsOk;
      hide DirectOk;
      hide IsBinned;
      hide IsTop;
      hide Blocks;
      hide LeastSize;
      var p, dvs := dv, dvsize;
      HandOutOk(p, req);
      KeptUseVictim(cells, bins.sizes, dv, dvsize, top, topsize, User(req));
      BlocksWithKind(cells, p, User(req));
      NewBlock(cells, p, req, dvs);
      dvsize := 0;
      dv := 0;
      SetInuseAndPinuse(p, dvs);
      cells := WithKind(cells, p, User(req));
    }

    // A chunk of this size at p is now in use, and all other blocks are as before.
    ghost predicate HandedAt(p: Addr, size: nat, req: nat, blocks: map<Addr, Block>)
      reads this
    {
      && p in cells && cells[p].size == size && p !in blocks && Blocks(cells) == blocks[p := Block(req, size)]
    }

    lemma VictimNotBinned()
      requires IsBinned(cells, bins.sizes) && IsVictim(cells, dv, dvsize) && dv != 0
      ensures bins.sizes - {dv} == bins.sizes
    {
    }

    // A chunk that is not a block yet.
    lemma NewBlock(c: Cells, p: Addr, req: nat, size: nat)
      requires p in c && !c[p].kind.User?
      ensures p !in Blocks(c)
    {
    }

    lemma TwoWrites(m: map<Addr, Head>, p: Addr, a: Head, r: Addr, b: Head)
      requires p != r
      ensures m[p := a][r := b] == m[r := b][p := a]
    {
    }

    // The top is split.
    method FromTop(nb: nat, ghost req: nat) returns (p: Addr)
      requires Valid() && nb < topsize && nb >= LeastSize(User(req)) && nb % 8 == 0
      modifies this`head, this`cells, this`top, this`topsize
      ensures Valid() && p !in old(Blocks(cells)) && p in cells && cells[p].size == nb && p > 0
      ensures Blocks(cells) == old(Blocks(cells))[p := Block(req, nb)]
      ensures TopUsed(p, nb, old(Now()), Now())
    {
      hide Bins.Valid;
      hide HeapOk;
      hide SegsOk;
      hide DirectOk;
      TopFromOk(nb, User(req));
      KeptSplitTop(cells, bins.sizes, dv, dvsize, top, topsize, nb, User(req));
      BlocksSplit(cells, top, nb, User(req), Top);
      ghost var cells' := Split(cells, top, nb, User(req), Top);
      topsize := topsize - nb;
      var rsize := topsize;
      p := top;
      top := p + nb;
      var r := top;
      head := head[r := Head(rsize, false, true)];
      SetInuseHead(p, nb);
      cells := cells';
    }

    lemma TopBounds()
      requires HeapOk(cells, ranges, head, foot) && IsTop(cells, top, topsize)
      ensures topsize < LIMIT && topsize % 8 == 0 && top > 0
    {
      assert Fits(top, cells[top]);
    }

    lemma LeastPositive(k: Kind)
      ensures LeastSize(k) > 0 && LeastSize(Top) == 8 && (IsFree(k) ==> LeastSize(k) == MIN_CHUNK_SIZE)
    {
    }

    lemma TopFromOk(nb: nat, k: Kind)
      requires HeapOk(cells, ranges, head, foot) && IsTop(cells, top, topsize) && InUse(k)
      requires nb < topsize && nb >= LeastSize(k) && nb % 8 == 0
      ensures nb > 0 && top > 0 && Follows(cells, top) && top + nb !in cells
      ensures HeapOk(Split(cells, top, nb, k, Top), ranges,
                     head[top + nb := Head(topsize - nb, false, true)][top := Head(nb, true, true)], foot)
    {
      hide AllFit;
      hide Ordered;
      hide Chained;
      hide Coalesced;
      hide Covering;
      hide Tagged;
      hide LeastSize;
      TopBounds();
      LeastPositive(k);
      TopNeighbours(cells, head, foot, top);
      SplitTiled(cells, ranges, top, nb, k, Top);
      SplitTopOk(cells, ranges, head, foot, top, nb, k,
                 head[top + nb := Head(topsize - nb, false, true)][top := Head(nb, true, true)], foot);
    }

    // tmalloc_large: the best fit of the tree bins, unless the designated victim fits at least as well.
    // 0 if there is none, or it gives way.
    method TMallocLarge(nb: nat, ghost req: nat) returns (p: Addr)
      requires Valid() && MIN_LARGE_SIZE <= nb < TWO64 && nb >= LeastSize(User(req)) && nb % 8 == 0
      modifies this`head, this`foot, this`cells, bins
      ensures Valid() && (p == 0 ==> cells == old(cells) && Now() == old(Now()))
      ensures p != 0 ==> TookBest(p, nb, req, old(bins.sizes), old(cells)) && BinUsed(p, nb, old(Now()), Now())
      ensures p != 0 <==> BetterFit(old(Now()), nb)
    {
      hide HeapOk, SegsOk, DirectOk, LeastSize, Bins.Valid;
      HeadsAgree();
      VictimBounds();
      var v, rsize := FindBest(bins, nb, ChunkSizes());
      LargeFits(nb, v, rsize);
      if v != 0 && rsize < Minus(dvsize, nb) {
        HandOutBest(v, rsize, nb, req);
        p := v;
      } else {
        p := 0;
      }
    }

    // The best fit leaves its bin; the rest goes to a bin, if it is a chunk.
    method HandOutBest(v: Addr, rsize: nat, nb: nat, ghost req: nat)
      requires Valid() && MIN_LARGE_SIZE <= nb && nb >= LeastSize(User(req)) && nb % 8 == 0
      requires v in bins.sizes && !IsSmall(bins.sizes[v]) && bins.sizes[v] == nb + rsize
      modifies this`head, this`foot, this`cells, bins
      ensures Valid() && TookChunk(v, nb, req, nb + rsize, old(cells)) && RestKept(v, nb, old(Now()), Now())
    {
      hide HeapOk, SegsOk, DirectOk, LeastSize, Bins.Valid;
      BinnedChunk(v);
      bins.UnlinkLarge(v);
      if rsize < MIN_CHUNK_SIZE {
        HandOut(v, rsize + nb, req);
      } else {
        HandOutBinning(v, rsize + nb, nb, req);
      }
    }

    // The chunk handed out is the smallest binned chunk that fits; a rest too small for a chunk stays with it.
    ghost predicate TookBest(p: Addr, nb: nat, req: nat, sizes: map<Addr, nat>, before: Cells)
      reads this
    {
      && p in sizes && p in before && !before[p].kind.User? && sizes[p] >= nb
      && (forall x :: x in sizes && sizes[x] >= nb ==> sizes[p] <= sizes[x])
      && Blocks(cells) == Blocks(before)[p := Block(req, if sizes[p] - nb < MIN_CHUNK_SIZE then sizes[p] else nb)]
    }

    lemma VictimBounds()
      requires HeapOk(cells, ranges, head, foot) && IsVictim(cells, dv, dvsize)
      ensures dvsize < LIMIT && (dv != 0 ==> dv > 0 && ChunkSize(dvsize)) && (dv == 0 ==> dvsize == 0)
    {
      if dv != 0 {
        assert Fits(dv, cells[dv]);
      }
    }

    // For a large request, all binned chunks that fit are in tree bins.
    lemma LargeFits(nb: nat, v: Addr, rsize: nat)
      requires Valid() && MIN_LARGE_SIZE <= nb && BestFit(v, rsize, nb, bins.sizes)
      ensures forall x :: x in bins.sizes && bins.sizes[x] >= nb ==> v != 0 && bins.sizes[v] <= bins.sizes[x]
      ensures v != 0 ==> v in bins.sizes && bins.sizes[v] == nb + rsize
    {
      hide HeapOk;
    }

    lemma LeastOfTrees(v: Addr, rsize: nat, nb: nat, sizes: map<Addr, nat>)
      requires v != 0 && BestFit(v, rsize, nb, sizes) && nb < MIN_LARGE_SIZE
      ensures v in sizes && !IsSmall(sizes[v])
      ensures forall x :: x in sizes && !IsSmall(sizes[x]) ==> sizes[v] <= sizes[x]
    {
    }

    // tmalloc_small: the smallest chunk of the tree bins; the rest becomes the designated victim.
    method TMallocSmall(nb: nat, ghost req: nat) returns (p: Addr)
      requires Valid() && nb < MIN_LARGE_SIZE && nb >= LeastSize(User(req)) && nb % 8 == 0
      requires IsSmall(dvsize) && bins.treemap != 0
      modifies this`head, this`foot, this`cells, this`dv, this`dvsize, bins
      ensures Valid() && p in old(bins.sizes) && p > 0
      ensures !IsSmall(old(bins.sizes)[p])
      ensures forall x :: x in old(bins.sizes) && !IsSmall(old(bins.sizes)[x]) ==>
        old(bins.sizes)[p] <= old(bins.sizes)[x]
      ensures TookChunk(p, nb, req, old(bins.sizes)[p], old(cells)) && RestKept(p, nb, old(Now()), Now())
    {
      hide HeapOk;
      hide SegsOk;
      hide DirectOk;
      hide LeastSize;
      HeadsAgree();
      RequestBounds(nb, req);
      var v, rsize := FindLeast(bins, nb, ChunkSizes());
      LeastOfTrees(v, rsize, nb, bins.sizes);
      BinnedSize(bins, v);
      HandOutLeast(v, rsize, nb, req);
      p := v;
    }

    // A tree chunk leaves its bin; the rest becomes the victim, if it is a chunk.
    method HandOutLeast(v: Addr, rsize: nat, nb: nat, ghost req: nat)
      requires Valid() && nb < MIN_LARGE_SIZE && nb >= LeastSize(User(req)) && nb % 8 == 0 && IsSmall(dvsize)
      requires v in bins.sizes && !IsSmall(bins.sizes[v]) && bins.sizes[v] == nb + rsize
      modifies this`head, this`foot, this`cells, this`dv, this`dvsize, bins
      ensures Valid() && TookChunk(v, nb, req, nb + rsize, old(cells)) && RestKept(v, nb, old(Now()), Now())
    {
      hide HeapOk, SegsOk, DirectOk, LeastSize, Bins.Valid, Blocks, IsSmall;
      BinnedChunk(v);
      bins.UnlinkLarge(v);
      if rsize < MIN_CHUNK_SIZE {
        HandOut(v, rsize + nb, req);
      } else {
        HandOutReplacing(v, rsize + nb, nb, req);
      }
    }

    // The chunk of this size at p is in use, all of it or just nb bytes; all other blocks are as before.
    ghost predicate TookChunk(p: Addr, nb: nat, req: nat, size: nat, before: Cells)
      reads this
    {
      && p in before && !before[p].kind.User? && size >= nb
      && Blocks(cells) == Blocks(before)[p := Block(req, if size - nb < MIN_CHUNK_SIZE then size else nb)]
    }

    // The paths of a small request that look into the bins; 0 if none of them serves it.
    method SmallFromBins(nb: nat, ghost req: nat) returns (p: Addr)
      requires Valid() && nb < MIN_LARGE_SIZE && nb >= LeastSize(User(req)) && nb % 8 == 0
      modifies this`head, this`foot, this`cells, this`dv, this`dvsize, bins
      ensures Valid() && (p == 0 ==> cells == old(cells) && Now() == old(Now()))
      ensures p != 0 ==> TookBest(p, nb, req, old(bins.sizes), old(cells)) && BinUsed(p, nb, old(Now()), Now())
      ensures p != 0 <==> ExactFit(old(Now()), nb) || (nb > old(dvsize) && HasFit(old(Now()), nb))
    {
      hide IsMarked, Down, FirstTwo, NotFirst;
      hide HeapOk;
      hide SegsOk;
      hide DirectOk;
      hide LeastSize;
      hide Bins.Valid, ExactFit;
      RequestBounds(nb, req);
      var idx := nb / 8;
      var smallbits := Down(bins.smallmap, idx);
      SmallBits(bins.smallmap, idx);
      ExactMarked(bins, nb, Now());
      if FirstTwo(smallbits) {  // remainderless fit to a small bin
        idx := idx + NotFirst(smallbits);
        LeastMarked(bins, nb, idx);
        p := UnlinkFirst(idx);
        HandOut(p, 8 * idx, req);
      } else if nb > dvsize {
        p := NextFromBins(nb, idx, smallbits, req);
      } else {
        p := 0;
      }
    }

    // No chunk has this size, or nearly so, and the victim is too small.
    method NextFromBins(nb: nat, idx: nat, smallbits: BinMap, ghost req: nat) returns (p: Addr)
      requires Valid() && nb < MIN_LARGE_SIZE && nb >= LeastSize(User(req)) && nb % 8 == 0 && nb > dvsize
      requires idx == nb / 8 && smallbits == Down(bins.smallmap, idx) && !IsMarked(bins.smallmap, idx)
      modifies this`head, this`foot, this`cells, this`dv, this`dvsize, bins
      ensures Valid() && (p == 0 ==> cells == old(cells) && Now() == old(Now()))
      ensures p != 0 ==> TookBest(p, nb, req, old(bins.sizes), old(cells)) && BinUsed(p, nb, old(Now()), Now())
      ensures p != 0 <==> HasFit(old(Now()), nb)
    {
      hide IsMarked, Down;
      hide HeapOk;
      hide SegsOk;
      hide DirectOk;
      hide LeastSize;
      hide Bins.Valid;
      RequestBounds(nb, req);
      VictimIsSmall(nb);
      SmallBits(bins.smallmap, idx);
      if smallbits != 0 {  // a chunk of the next small bin that is not empty
        var i := NextSmall(smallbits, idx, bins.smallmap);
        LeastMarked(bins, nb, i);
        p := UnlinkFirst(i);
        var rsize := 8 * i - nb;
        if rsize < MIN_CHUNK_SIZE {
          HandOut(p, 8 * i, req);
        } else {
          HandOutReplacing(p, 8 * i, nb, req);
        }
      } else {
        NoneMarked(bins, nb);
        p := 0;
        if bins.treemap != 0 {
          p := TMallocSmall(nb, req);
        }
      }
    }

    lemma VictimIsSmall(nb: nat)
      requires nb > dvsize && nb < MIN_LARGE_SIZE && Valid()
      ensures IsSmall(dvsize)
    {
      hide HeapOk;
    }

    method UnlinkFirst(i: nat) returns (p: Addr)
      requires Valid() && IsMarked(bins.smallmap, i)
      modifies bins
      ensures bins.Valid() && p !in bins.sizes && IsBinned(cells, bins.sizes[p := 8 * i])
      ensures p > 0 && p in cells && cells[p].kind.Binned? && cells[p].size == 8 * i
      ensures p in old(bins.sizes) && old(bins.sizes)[p] == 8 * i && bins.sizes == old(bins.sizes) - {p}
    {
      hide IsMarked;
      hide HeapOk;
      ghost var sizes := bins.sizes;
      p := bins.UnlinkFirstSmall(i);
      assert bins.sizes[p := 8 * i] == sizes;
      PositiveChunk(p);
    }

    lemma PositiveChunk(p: Addr)
      requires HeapOk(cells, ranges, head, foot) && p in cells
      ensures p > 0
    {
      assert Fits(p, cells[p]);
    }

    lemma RequestBounds(nb: nat, req: nat)
      requires nb >= LeastSize(User(req))
      ensures nb >= MIN_CHUNK_SIZE && nb >= req + CHUNK_OVERHEAD
    {
    }

    // ----------------------------------------------------------------- system calls

    // CALL_MMAP: some region that is not mapped yet, or failure.
    method CallMmap(size: nat) returns (ok: bool, base: Addr)
      modifies this`log
      ensures log == old(log) + [Mmap(size, ok, base)]
      ensures if ok then Unmapped(base, size, segs, direct) else base == 0
    {
      base := *;
      ok := Unmapped(base, size, segs, direct);
      base := if ok then base else 0;
      log := log + [Mmap(size, ok, base)];
    }

    // CALL_MUNMAP may fail.
    method CallMunmap(base: Addr, size: nat) returns (ok: bool)
      modifies this`log
      ensures log == old(log) + [Munmap(base, size, ok)]
    {
      ok := *;
      log := log + [Munmap(base, size, ok)];
    }

    // CALL_MREMAP without moving: fails if memory behind the region is in use, and may fail in any case.
    method CallMremap(base: Addr, old_size: nat, new_size: nat) returns (ok: bool)
      modifies this`log
      ensures log == old(log) + [Mremap(base, old_size, new_size, ok)]
      ensures ok ==> new_size > 0
      ensures ok && new_size > old_size ==> Unmapped(base + old_size, new_size - old_size, segs, direct)
    {
      ok := *;
      ok := ok && new_size > 0 &&
        (new_size > old_size ==> Unmapped(base + old_size, new_size - old_size, segs, direct));
      log := log + [Mremap(base, old_size, new_size, ok)];
    }

    // Chunks lie in the segments.
    lemma UnmappedUnused(base: Addr, size: nat)
      requires HeapOk(cells, ranges, head, foot) && SegsOk(segs, ids, ranges) && Unmapped(base, size, segs, direct)
      ensures Unused(cells, base, base + size) && base > 0 && (size > 0 ==> base !in cells)
    {
      assert base in cells ==> Fits(base, cells[base]);
      forall q | q in cells ensures q + cells[q].size <= base || q >= base + size {
        assert Placed(q, cells[q], ranges);
        var s := cells[q].seg;
        var i :| 0 <= i < |ids| && ids[i] == s;
        assert Disjoint(base, base + size, segs[i].base, segs[i].base + segs[i].size);
      }
    }

    // ---------------------------------------------------------------- direct chunks

    // direct_alloc; 0 on failure. Sizes wrap around.
    method DirectAlloc(nb: nat, ghost req: nat) returns (p: Addr, ghost answers: seq<Call>)
      requires Valid() && nb < TWO64 && (nb == TWO64 - 1 || nb >= req + CHUNK_OVERHEAD)
      modifies this`direct, this`asked, this`log
      ensures Valid() && log == old(log) + answers
      ensures p == 0 ==> direct == old(direct) && asked == old(asked)
      ensures p != 0 ==> p !in old(direct) && p !in cells && p > 0 && nb != TWO64 - 1
      ensures p != 0 ==> p in direct && direct == old(direct)[p := direct[p]] && asked == old(asked)[p := req]
      ensures answers == if MapSize(nb) > nb then [Mmap(MapSize(nb), p != 0, p)] else []
      ensures p != 0 ==> answers != [] && direct[p].offset == 0 && direct[p].psize + DIRECT_FOOT_PAD == MapSize(nb)
    {
      hide HeapOk;
      hide SegsOk;
      hide DirectOk;
      hide Unmapped;
      p, answers := 0, [];
      var mmsize := MapSize(nb);
      if mmsize > nb {
        NoWrap(nb, mmsize);
        var ok, mm := CallMmap(mmsize);
        answers := [Mmap(mmsize, ok, mm)];
        if ok {
          UnmappedUnused(mm, mmsize);
          var psize := mmsize - DIRECT_FOOT_PAD;
          DirectAdded(segs, ids, ranges, direct, asked, mm, psize, req);
          p := mm;
          direct := direct[p := Mapped(0, psize)];
          asked := asked[p := req];
        }
      }
    }

    lemma NoWrap(nb: nat, mmsize: nat)
      requires nb < TWO64 && mmsize == MapSize(nb) && mmsize > nb
      ensures mmsize >= nb + 55
    {
    }

    // direct_resize: the chunk is kept, or its mapping resized in place; 0 if neither works.
    method DirectResize(p: Addr, nb: nat, ghost req: nat) returns (newp: Addr, ghost tried: seq<Call>)
      requires Valid() && p in direct && nb + 55 < TWO64 && nb >= req + CHUNK_OVERHEAD
      modifies this`direct, this`asked, this`log
      ensures Valid() && (newp == 0 || newp == p) && log == old(log) + tried
      ensures newp == 0 ==> direct == old(direct) && asked == old(asked)
      ensures newp != 0 ==> p in direct && direct == old(direct)[p := direct[p]] && asked == old(asked)[p := req]
      ensures tried == old(DirectTried(p, nb, newp != 0))
      ensures IsSmall(nb) ==> newp == 0
      ensures !IsSmall(nb) && KeptDirect(old(direct[p].psize), nb) ==> newp != 0
      ensures newp != 0 ==>
        if KeptDirect(old(direct[p].psize), nb) then direct[p].psize == old(direct[p].psize)
        else direct[p].psize + DIRECT_FOOT_PAD == MapSize(nb)
    {
      hide HeapOk;
      hide SegsOk;
      hide DirectOk;
      hide Unmapped;
      var oldsize := direct[p].psize;
      DirectBounds(p);
      tried := [];
      if IsSmall(nb) {
        return 0, tried;
      }
      if oldsize >= nb + SIZE_T_SIZE && oldsize - nb <= DEFAULT_GRANULARITY / 2 {
        DirectResized(segs, ids, ranges, direct, asked, p, oldsize, req);
        asked := asked[p := req];
        direct := direct[p := direct[p]];
        newp := p;
      } else {
        var oldmm := oldsize + DIRECT_FOOT_PAD;
        var newmm := MapSize(nb);
        var ok := CallMremap(p, oldmm, newmm);
        tried := [Mremap(p, oldmm, newmm, ok)];
        if ok {
          AlignedUp(nb, newmm);
          var psize := newmm - DIRECT_FOOT_PAD;
          DirectResized(segs, ids, ranges, direct, asked, p, psize, req);
          direct := direct[p := Mapped(0, psize)];
          asked := asked[p := req];
          newp := p;
        } else {
          newp := 0;
        }
      }
    }

    // The mapping of a direct chunk is resized unless that is kept, or would be too small.
    ghost function DirectTried(p: Addr, nb: nat, ok: bool): seq<Call>
      reads this
    {
      if p !in direct || IsSmall(nb) || KeptDirect(direct[p].psize, nb) then []
      else [Mremap(p, direct[p].psize + DIRECT_FOOT_PAD, MapSize(nb), ok)]
    }

    // A direct chunk is kept if it is big enough, but not too big.
    predicate KeptDirect(psize: nat, nb: nat) {
      psize >= nb + SIZE_T_SIZE && psize - nb <= DEFAULT_GRANULARITY / 2
    }

    lemma DirectBounds(p: Addr)
      requires MappingOk() && p in direct
      ensures p > 0 && direct[p] == Mapped(0, direct[p].psize) && asked[p] + DIRECT_CHUNK_OVERHEAD <= direct[p].psize
    {
    }

    // Rounding up did not wrap around, or the result is 0.
    lemma AlignedUp(nb: nat, newmm: nat)
      requires nb + 55 < TWO64 && newmm == MapSize(nb) && newmm > 0
      ensures newmm >= nb + 55
    {
    }

    // ------------------------------------------------------------------- segments

    // init_top.
    method InitTop(p: Addr, psize: nat)
      modifies this`top, this`topsize, this`head, this`trimCheck
      ensures top == p && topsize == psize && trimCheck == DEFAULT_TRIM_THRESHOLD
      ensures head == old(head)[p := Head(psize, false, true)][p + psize := Head(TOP_FOOT_SIZE, false, false)]
    {
      top := p;
      topsize := psize;
      head := head[p := Head(psize, false, true)];
      head := head[p + psize := Head(TOP_FOOT_SIZE, false, false)];
      trimCheck := DEFAULT_TRIM_THRESHOLD;
    }

    // All of a new region is top.
    method SetUpTop(base: Addr, size: nat)
      requires size >= TOP_FOOT_SIZE
      modifies this`top, this`topsize, this`head, this`trimCheck
      ensures top == base && topsize == size - TOP_FOOT_SIZE && head == WithTop(old(head), base, size)
      ensures trimCheck == DEFAULT_TRIM_THRESHOLD
    {
      InitTop(base, size - TOP_FOOT_SIZE);
    }

    // set_free_with_pinuse.
    method SetFreeBefore(p: Addr, s: nat, n: Addr)
      modifies this`head, this`foot
      ensures head == old(head)[n := old(HeadOf(n)).(pinuse := false)][p := Head(s, false, true)]
      ensures foot == old(foot)[p + s := Size(s)]
    {
      head := head[n := HeadOf(n).(pinuse := false)];
      SetFree(p, s);
    }

    // The segment that ends at this address, or that starts there.
    method FindSegment(edge: Addr, end: bool) returns (found: bool, i: nat)
      ensures found ==> i < |segs| && edge == (if end then SegEnd(segs[i]) else segs[i].base)
      ensures !found ==> forall j :: 0 <= j < |segs| ==> edge != (if end then SegEnd(segs[j]) else segs[j].base)
    {
      i := 0;
      while i < |segs|
        invariant i <= |segs|
        invariant forall j :: 0 <= j < i ==> edge != (if end then SegEnd(segs[j]) else segs[j].base)
      {
        if edge == (if end then SegEnd(segs[i]) else segs[i].base) {
          return true, i;
        }
        i := i + 1;
      }
      found := false;
    }

    // segment_holds.
    predicate SegmentHolds(g: Segment, a: Addr) {
      g.base <= a < SegEnd(g)
    }

    // The top lies in the current segment, and ends where that ends.
    lemma TopInFirst()
      requires HeapOk(cells, ranges, head, foot) && IsTop(cells, top, topsize) && MappingOk()
      ensures |segs| == |ids| > 0 && segs[0].base <= top && top + topsize + TOP_FOOT_SIZE == SegEnd(segs[0])
      ensures Follows(cells, top) && cells[After(cells, top)].kind.Tail? &&
        cells[After(cells, top)].size == TOP_FOOT_SIZE
      ensures 0 < topsize < LIMIT && topsize % 8 == 0 && top % 8 == 0 && top > 0
      ensures forall i :: 0 < i < |segs| ==> !SegmentHolds(segs[i], top)
      ensures ids[0] in ranges && ranges[ids[0]] == Range(segs[0].base, SegEnd(segs[0])) && segs[0].base > 0
      ensures segs[0].size % DEFAULT_GRANULARITY == 0
    {
      TopNeighbours(cells, head, foot, top);
      assert Placed(top, cells[top], ranges) && Fits(top, cells[top]);
      var t := After(cells, top);
      assert Placed(t, cells[t], ranges);
      assert Fits(ranges[ids[0]].lo, cells[ranges[ids[0]].lo]);
      forall i | 0 < i < |segs| ensures !SegmentHolds(segs[i], top) {
        assert Disjoint(segs[0].base, SegEnd(segs[0]), segs[i].base, SegEnd(segs[i]));
      }
    }

    // The current segment grows by a region right behind it.
    method Append(i: nat, tsize: nat)
      requires Valid() && i < |segs| && Unmapped(SegEnd(segs[i]), tsize, segs, direct)
      requires Granular(tsize) && SegmentHolds(segs[i], top)
      modifies this`top, this`topsize, this`head, this`trimCheck, this`segs, this`cells, this`ranges
      ensures Valid() && topsize == old(topsize) + tsize && Blocks(cells) == old(Blocks(cells)) && top == old(top)
      ensures trimCheck == DEFAULT_TRIM_THRESHOLD
      ensures i == 0 && |old(segs)| > 0 && segs == old(segs)[0 := old(segs[0]).(size := old(segs[0]).size + tsize)]
    {
      hide HeapOk;
      hide IsBinned;
      hide IsVictim;
      hide SegsOk;
      hide DirectOk;
      hide Unmapped;
      TopInFirst();
      ghost var cells', ranges' := AppendOk(i, tsize, topsize + tsize);
      segs := segs[i := segs[i].(size := segs[i].size + tsize)];
      InitTop(top, topsize + tsize);
      cells, ranges := cells', ranges';
    }

    lemma AppendOk(i: nat, tsize: nat, size: nat) returns (cells': Cells, ranges': Ranges)
      requires Valid() && i < |segs| && Unmapped(SegEnd(segs[i]), tsize, segs, direct)
      requires Granular(tsize) && SegmentHolds(segs[i], top) && size == topsize + tsize
      ensures HeapOk(cells', ranges',
        head[top := Head(size, false, true)][top + size := Head(TOP_FOOT_SIZE, false, false)], foot)
      ensures IsBinned(cells', bins.sizes) && IsVictim(cells', dv, dvsize) && IsTop(cells', top, size)
      ensures Blocks(cells') == Blocks(cells) && |ids| > 0 && cells'[top].seg == ids[0]
      ensures SegsOk(segs[i := segs[i].(size := segs[i].size + tsize)], ids, ranges') &&
        DirectOk(direct, asked, ranges')
    {
      hide HeapOk;
      hide SegsOk;
      hide DirectOk;
      hide Granular;
      hide Unmapped;
      hide Bins.Valid;
      hide Blocks;
      hide IsBinned;
      hide IsVictim;
      TopInFirst();
      assert i == 0;
      AppendFits(tsize, size);
      cells', ranges' := TailMoved(cells, top, size), EndMoved(cells, ranges, top, size);
      TailMovedOk(cells, ranges, head, foot, top, size,
                  head[top := Head(size, false, true)][top + size := Head(TOP_FOOT_SIZE, false, false)]);
      TailMovedKept(cells, bins.sizes, dv, dvsize, top, topsize, size);
      GrownSegment(i, SegEnd(segs[i]), tsize, segs[i].(size := segs[i].size + tsize));
    }

    // A segment grows by an adjacent region.
    lemma GrownSegment(i: nat, base: Addr, size: nat, g: Segment)
      requires MappingOk() && i < |segs| && Unmapped(base, size, segs, direct)
      requires Granular(size)
      requires if base == SegEnd(segs[i]) then g.base == segs[i].base && SegEnd(g) == base + size
               else base + size == segs[i].base && g.base == base && SegEnd(g) == SegEnd(segs[i])
      ensures |ids| == |segs| && ids[i] in ranges && ranges[ids[i]] == Range(segs[i].base, SegEnd(segs[i]))
      ensures SegsOk(segs[i := g], ids, ranges[ids[i] := Range(g.base, SegEnd(g))])
      ensures DirectOk(direct, asked, ranges[ids[i] := Range(g.base, SegEnd(g))])
    {
      GrownApart(segs, direct, ids, ranges, asked, i, base, size, g);
      ResizedSegs(segs, ids, ranges, i, g, segs[i := g], ranges[ids[i] := Range(g.base, SegEnd(g))]);
      ResizedDirect(direct, asked, ranges, ids[i], Range(g.base, SegEnd(g)));
    }

    lemma AppendFits(tsize: nat, size: nat)
      requires HeapOk(cells, ranges, head, foot) && IsTop(cells, top, topsize) && MappingOk() && |segs| > 0
      requires Unmapped(SegEnd(segs[0]), tsize, segs, direct) && Granular(tsize) && size == topsize + tsize
      requires top + topsize + TOP_FOOT_SIZE == SegEnd(segs[0]) && topsize % 8 == 0 && topsize > 0
      ensures CanMove(cells, top, size)
    {
      hide Granular, AllFit, Ordered, Chained, Coalesced, Covering, Tagged, SegsOk, DirectOk;
      GranularSize(tsize);
      var end := SegEnd(segs[0]);
      UnmappedUnused(end, tsize);
      TopNeighbours(cells, head, foot, top);
      AboveTail(cells, top, end, end + tsize);
    }

    lemma AboveTail(c: Cells, p: Addr, end: Addr, hi: Addr)
      requires Tiled(c) && p in c && Follows(c, p) && After(c, p) + c[After(c, p)].size == end && Unused(c, end, hi)
      ensures forall q :: q in c && q > p && q != After(c, p) ==> q >= hi
    {
      FitPositive(c);
      hide AllFit;
      hide Chained;
    }

    // add_segment: the new region becomes the current segment, all of it top. The record of the old
    // one is pushed to the end of the old segment.
    method AddSegment(tbase: Addr, tsize: nat)
      requires Valid() && Unmapped(tbase, tsize, segs, direct) && Granular(tsize)
      modifies this`head, this`foot, this`cells, this`ranges, this`ids, this`segs, this`top, this`topsize,
               this`trimCheck, bins
      ensures Valid() && Blocks(cells) == old(Blocks(cells)) && top == tbase && topsize == tsize - TOP_FOOT_SIZE
      ensures Pushed(old(segs), segs, tbase, tsize) && trimCheck == DEFAULT_TRIM_THRESHOLD
      ensures bins.sizes == if old(topsize) >= MIN_CHUNK_SIZE then old(bins.sizes)[old(top) := old(topsize)]
        else old(bins.sizes)
    {
      hide HeapOk;
      hide IsBinned;
      hide IsVictim;
      hide SegsOk;
      hide DirectOk;
      hide Unmapped;
      hide TagsSuffice;
      hide AddedTags;
      hide Recorded;
      hide WithTop;
      hide Granular;
      hide Bins.Valid;
      hide Blocks;
      ghost var s, head0, foot0 := FreshId(ids), head, foot;
      ghost var cells', ranges', sizes' := AddedOk(tbase, tsize, s);
      TopPositive();
      var oldTop, oldSize := top, topsize;
      var csp := MoveTop(tbase, tsize);
      ids, cells, ranges := [s] + ids, cells', ranges';
      GiveUpTop(oldTop, oldSize, csp, tbase, tsize, head0, foot0, sizes');
    }

    lemma TopPositive()
      requires HeapOk(cells, ranges, head, foot) && IsTop(cells, top, topsize) && MappingOk()
      ensures top > 0 && topsize < LIMIT && topsize % 8 == 0
    {
      TopInFirst();
      hide HeapOk;
      hide SegsOk;
    }

    // The new region becomes the top, and the old segment gets its record and fenceposts.
    method MoveTop(tbase: Addr, tsize: nat) returns (csp: Addr)
      requires HeapOk(cells, ranges, head, foot) && IsTop(cells, top, topsize) && MappingOk() && tsize >= TOP_FOOT_SIZE
      modifies this`head, this`segs, this`top, this`topsize, this`trimCheck
      ensures top == tbase && topsize == tsize - TOP_FOOT_SIZE && trimCheck == DEFAULT_TRIM_THRESHOLD
      ensures csp == if old(topsize) < MIN_CHUNK_SIZE then old(top) else old(top) + old(topsize)
      ensures Recorded(WithTop(old(head), tbase, tsize), head, csp, old(top) + old(topsize) + TOP_FOOT_SIZE)
      ensures Pushed(old(segs), segs, tbase, tsize)
    {
      hide HeapOk;
      hide SegsOk;
      hide DirectOk;
      hide Recorded;
      hide WithTop;
      TopInFirst();
      var oldTop, oldEnd := top, SegEnd(segs[0]);
      var asp := oldEnd - TOP_FOOT_SIZE;
      csp := if asp < oldTop + MIN_CHUNK_SIZE then oldTop else asp;
      SetUpTop(tbase, tsize);
      PushRecord(csp, oldEnd, tbase, tsize);
    }

    // The rest of the old top goes into a bin as an ordinary free chunk.
    method GiveUpTop(oldTop: Addr, oldSize: nat, csp: Addr, tbase: Addr, tsize: nat,
                     ghost head0: map<Addr, Head>, ghost foot0: map<Addr, Foot>, ghost sizes': map<Addr, nat>)
      requires bins.Valid() && oldTop > 0 && oldTop !in bins.sizes && oldSize < LIMIT && oldSize % 8 == 0 &&
        tsize >= TOP_FOOT_SIZE
      requires csp == if oldSize < MIN_CHUNK_SIZE then oldTop else oldTop + oldSize
      requires Recorded(WithTop(head0, tbase, tsize), head, csp, oldTop + oldSize + TOP_FOOT_SIZE) && foot == foot0
      requires TagsSuffice(head0, foot0, tbase, tsize, oldTop, oldSize, cells, ranges)
      requires sizes' == if oldSize >= MIN_CHUNK_SIZE then bins.sizes[oldTop := oldSize] else bins.sizes
      requires IsBinned(cells, sizes')
      modifies this`head, this`foot, bins
      ensures HeapOk(cells, ranges, head, foot) && bins.Valid() && bins.sizes == sizes'
    {
      hide HeapOk;
      hide AddedTags;
      hide IsBinned;
      if csp != oldTop {
        var psize := csp - oldTop;
        ghost var head2 := head;
        SetFreeBefore(oldTop, psize, csp);
        AddedBinnedTags(head0, foot0, head2, head, tbase, tsize, oldTop, oldSize);
        BinnedHeads(cells, ranges, head, foot, sizes');
        InsertChunk(oldTop, psize);
      } else {
        AddedTakenTags(head0, foot0, head, tbase, tsize, oldTop, oldSize);
      }
    }

    // What the tags look like when the new top is set up, and the old one became an ordinary free
    // chunk, or, if it was too small for that, the record.
    ghost predicate AddedTags(h: map<Addr, Head>, f: map<Addr, Foot>, h': map<Addr, Head>, f': map<Addr, Foot>,
                              base: Addr, size: nat, oldTop: Addr, oldSize: nat)
      requires size >= TOP_FOOT_SIZE
    {
      var t, h1 := oldTop + oldSize, WithTop(h, base, size);
      if oldSize >= MIN_CHUNK_SIZE then
        && oldTop in h' && h'[oldTop] == Head(oldSize, false, true)
        && t in h' && h'[t] == Head(MIN_CHUNK_SIZE, true, false) && f' == f[t := Size(oldSize)]
        && forall q :: q != oldTop && q != t && !(t + MIN_CHUNK_SIZE <= q < t + TOP_FOOT_SIZE) && q in h1 ==>
          q in h' && h'[q] == h1[q]
      else
        && oldTop in h' && h'[oldTop] == Head(MIN_CHUNK_SIZE, true, true) && f' == f
        && forall q :: q != oldTop && !(oldTop + MIN_CHUNK_SIZE <= q < t + TOP_FOOT_SIZE) && q in h1 ==>
          q in h' && h'[q] == h1[q]
    }

    ghost function WithTop(h: map<Addr, Head>, base: Addr, size: nat): map<Addr, Head>
      requires size >= TOP_FOOT_SIZE
    {
      h[base := Head(size - TOP_FOOT_SIZE, false, true)][base + size - TOP_FOOT_SIZE :=
        Head(TOP_FOOT_SIZE, false, false)]
    }

    // Once the tags look like this, the heap is these cells.
    ghost predicate TagsSuffice(h: map<Addr, Head>, f: map<Addr, Foot>, base: Addr, size: nat, oldTop: Addr,
                                oldSize: nat, c: Cells, r: Ranges)
      requires size >= TOP_FOOT_SIZE
    {
      forall h', f' :: AddedTags(h, f, h', f', base, size, oldTop, oldSize) ==> HeapOk(c, r, h', f')
    }

    // What PushRecord wrote: h1 is the tags before it.
    ghost predicate Recorded(h1: map<Addr, Head>, h2: map<Addr, Head>, csp: Addr, end: Addr) {
      && csp in h2 && h2[csp] == Head(MIN_CHUNK_SIZE, true, true)
      && forall q :: q != csp && !(csp + MIN_CHUNK_SIZE <= q < end) && q in h1 ==> q in h2 && h2[q] == h1[q]
    }

    lemma AddedBinnedTags(h: map<Addr, Head>, f: map<Addr, Foot>, h2: map<Addr, Head>, h': map<Addr, Head>,
                          base: Addr, size: nat, oldTop: Addr, oldSize: nat)
      requires size >= TOP_FOOT_SIZE && oldSize >= MIN_CHUNK_SIZE
      requires Recorded(WithTop(h, base, size), h2, oldTop + oldSize, oldTop + oldSize + TOP_FOOT_SIZE)
      requires h' == h2[oldTop + oldSize := Head(MIN_CHUNK_SIZE, true, false)][oldTop := Head(oldSize, false, true)]
      ensures AddedTags(h, f, h', f[oldTop + oldSize := Size(oldSize)], base, size, oldTop, oldSize)
    {
    }

    lemma AddedTakenTags(h: map<Addr, Head>, f: map<Addr, Foot>, h': map<Addr, Head>,
                         base: Addr, size: nat, oldTop: Addr, oldSize: nat)
      requires size >= TOP_FOOT_SIZE && oldSize < MIN_CHUNK_SIZE
      requires Recorded(WithTop(h, base, size), h', oldTop, oldTop + oldSize + TOP_FOOT_SIZE)
      ensures AddedTags(h, f, h', f, base, size, oldTop, oldSize)
    {
    }

    // The heap with the new segment, once its tags are written.
    lemma AddedOk(tbase: Addr, tsize: nat, s: nat) returns (cells': Cells, ranges': Ranges, sizes': map<Addr, nat>)
      requires Valid() && Unmapped(tbase, tsize, segs, direct) && Granular(tsize) && s == FreshId(ids)
      ensures tsize >= TOP_FOOT_SIZE && top !in bins.sizes && sizes' == if topsize >= MIN_CHUNK_SIZE
        then bins.sizes[top := topsize] else bins.sizes
      ensures TagsSuffice(head, foot, tbase, tsize, top, topsize, cells', ranges')
      ensures IsBinned(cells', sizes') && IsVictim(cells', dv, dvsize) && IsTop(cells', tbase, tsize - TOP_FOOT_SIZE)
      ensures Blocks(cells') == Blocks(cells) && cells'[tbase].seg == s
      ensures forall segs' :: Pushed(segs, segs', tbase, tsize) ==> SegsOk(segs', [s] + ids, ranges')
      ensures DirectOk(direct, asked, ranges')
    {
      hide HeapOk;
      hide IsBinned;
      hide IsVictim;
      hide SegsOk;
      hide DirectOk;
      hide Unmapped;
      hide CanMap;
      AddedAround(tbase, tsize, s);
      NewTop(tbase, tsize, s);
      AddedMapping(tbase, tsize, s);
      var c, end := WithSegment(cells, s, tbase, tsize), top + topsize + TOP_FOOT_SIZE;
      ranges' := ranges[s := Range(tbase, tbase + tsize)];
      if topsize >= MIN_CHUNK_SIZE {
        cells', sizes' := TopBinned(c, top), bins.sizes[top := topsize];
        forall h', f' | AddedTags(head, foot, h', f', tbase, tsize, top, topsize)
          ensures HeapOk(cells', ranges', h', f')
        {
          AddedBinnedOk(cells, ranges, head, WithTop(head, tbase, tsize), foot, s, tbase, tsize, top, end, h', f');
        }
      } else {
        cells', sizes' := TopTaken(c, top), bins.sizes;
        forall h', f' | AddedTags(head, foot, h', f', tbase, tsize, top, topsize)
          ensures HeapOk(cells', ranges', h', f')
        {
          AddedTakenOk(cells, ranges, head, WithTop(head, tbase, tsize), foot, s, tbase, tsize, top, end, h');
        }
      }
    }

    lemma BinnedHeads(c: Cells, r: Ranges, h: map<Addr, Head>, f: map<Addr, Foot>, sizes: map<Addr, nat>)
      requires HeapOk(c, r, h, f) && IsBinned(c, sizes)
      ensures forall y :: y in sizes ==> y in h && h[y].size == sizes[y]
    {
      forall y | y in sizes ensures y in h && h[y].size == sizes[y] {
        assert HeadAt(c, h, y);
      }
    }

    // The record of the old segment, and fenceposts up to its end.
    method PushRecord(csp: Addr, end: Addr, tbase: Addr, tsize: nat)
      requires |segs| > 0 && csp + MIN_CHUNK_SIZE < end
      modifies this`head, this`segs
      ensures Recorded(old(head), head, csp, end)
      ensures Pushed(old(segs), segs, tbase, tsize) && segs[0].at == old(segs)[0].at && segs[1].at == csp + 16
    {
      SetInuseHead(csp, MIN_CHUNK_SIZE);
      segs := [Segment(tbase, tsize, segs[0].at), segs[0].(at := csp + 16)] + segs[1..];
      Fenceposts(csp + MIN_CHUNK_SIZE, end);
    }

    // Fenceposts up to the end of the old segment.
    method Fenceposts(first: Addr, end: Addr)
      requires first < end
      modifies `head
      ensures forall q :: (q < first || q >= end) && q in old(head) ==> q in head && head[q] == old(head)[q]
    {
      var p := first;
      while true
        invariant first <= p < end
        invariant forall q :: (q < first || q >= end) && q in old(head) ==> q in head && head[q] == old(head)[q]
        decreases end - p
      {
        var nextp := p + 8;
        head := head[p := Head(SIZE_T_SIZE, true, true)];
        if nextp + 8 < end {
          p := nextp;
        } else {
          break;
        }
      }
    }

    lemma AddedMapping(tbase: Addr, tsize: nat, s: nat)
      requires Valid() && Unmapped(tbase, tsize, segs, direct) && s == FreshId(ids)
      requires Granular(tsize)
      ensures s !in ranges
      ensures forall segs' :: Pushed(segs, segs', tbase, tsize) ==>
        SegsOk(segs', [s] + ids, ranges[s := Range(tbase, tbase + tsize)])
      ensures DirectOk(direct, asked, ranges[s := Range(tbase, tbase + tsize)])
    {
      hide HeapOk;
      hide Kept;
      forall segs' | Pushed(segs, segs', tbase, tsize)
        ensures SegsOk(segs', [s] + ids, ranges[s := Range(tbase, tbase + tsize)])
      {
        PushedOk(segs, segs', ids, ranges, s, tbase, tsize, direct);
      }
      ResizedDirect(direct, asked, ranges, s, Range(tbase, tbase + tsize));
    }

    // The old top and the new region.
    lemma AddedAround(tbase: Addr, tsize: nat, s: nat)
      requires Valid() && Unmapped(tbase, tsize, segs, direct) && Granular(tsize) && s == FreshId(ids)
      ensures CanMap(cells, ranges, s, tbase, tsize)
      ensures forall q :: tbase <= q < tbase + tsize ==> q !in cells
      ensures forall q :: q in cells && q != top && q != After(cells, top) ==>
        !(top < q < After(cells, top) + TOP_FOOT_SIZE)
      ensures tbase + tsize <= top || tbase >= After(cells, top) + TOP_FOOT_SIZE
      ensures topsize > 0 && top > 0 && top !in bins.sizes && Follows(cells, top) && cells[After(cells, top)].kind.Tail?
      ensures topsize < LIMIT && topsize % 8 == 0
    {
      hide SegsOk;
      hide DirectOk;
      hide IsVictim;
      hide Bins.Valid;
      hide AllFit;
      hide Ordered;
      hide Chained;
      hide Coalesced;
      hide Covering;
      hide Tagged;
      hide Unused;
      hide SegmentHolds;
      hide Granular;
      hide Blocks;
      GranularSize(tsize);
      AddedMapping(tbase, tsize, s);
      UnmappedUnused(tbase, tsize);
      NewAddresses(cells, tbase, tsize);
      NothingInTail(cells, head, foot, top);
      TopInFirst();
      UnusedTwo(cells, tbase, tbase + tsize, top, After(cells, top));
    }

    lemma UnusedTwo(c: Cells, lo: Addr, hi: Addr, p: Addr, t: Addr)
      requires Unused(c, lo, hi) && p in c && t in c && t == p + c[p].size && c[t].size > 0
      requires forall q :: lo <= q < hi ==> q !in c
      requires lo < hi
      ensures hi <= p || lo >= t + c[t].size
    {
    }

    lemma NewTop(tbase: Addr, tsize: nat, s: nat)
      requires Valid() && tsize >= TOP_FOOT_SIZE + 8 && forall q :: tbase <= q < tbase + tsize ==> q !in cells
      requires forall q :: q in cells && q != top && q != After(cells, top) ==>
        !(top < q < After(cells, top) + TOP_FOOT_SIZE)
      requires tbase + tsize <= top || tbase >= After(cells, top) + TOP_FOOT_SIZE
      requires topsize > 0 && Follows(cells, top) && cells[After(cells, top)].kind.Tail?
      ensures var c := WithSegment(cells, s, tbase, tsize);
        && top in c && c[top] == cells[top] && After(c, top) in c
        && (topsize >= MIN_CHUNK_SIZE ==> var c' := TopBinned(c, top);
              && IsBinned(c', bins.sizes[top := topsize]) && IsVictim(c', dv, dvsize)
              && IsTop(c', tbase, tsize - TOP_FOOT_SIZE) && Blocks(c') == Blocks(cells) && c'[tbase].seg == s)
        && (topsize < MIN_CHUNK_SIZE ==> var c' := TopTaken(c, top);
              && IsBinned(c', bins.sizes) && IsVictim(c', dv, dvsize)
              && IsTop(c', tbase, tsize - TOP_FOOT_SIZE) && Blocks(c') == Blocks(cells) && c'[tbase].seg == s)
    {
      hide HeapOk;
      hide SegsOk;
      hide DirectOk;
      hide IsBinned;
      hide IsVictim;
      hide Blocks;
      hide TopBinned;
      hide TopTaken;
      if topsize >= MIN_CHUNK_SIZE {
        TopBinnedKept(cells, bins.sizes, dv, dvsize, top, topsize, s, tbase, tsize);
      } else {
        TopTakenKept(cells, bins.sizes, dv, dvsize, top, topsize, s, tbase, tsize);
      }
    }

    // ----------------------------------------------------------- releasing memory

    // The first chunk of a segment other than the current one.
    lemma FirstChunk(i: nat)
      requires Valid() && i < |segs|
      ensures |ids| == |segs| && ids[i] in ranges && segs[i].base in cells && segs[i].base in head
      ensures var p := segs[i].base;
        && head[p] == Head(cells[p].size, InUse(cells[p].kind), PrevInUse(cells, p)) && cells[p].seg == ids[i]
        && ranges[ids[i]] == Range(p, SegEnd(segs[i])) && p > 0 && p + cells[p].size <= LIMIT && cells[p].size % 8 == 0
      ensures Granular(segs[i].size) && !cells[segs[i].base].kind.Tail?
      ensures 0 < i ==> ids[i] != ids[0] && !cells[segs[i].base].kind.Top?
    {
      var p := segs[i].base;
      assert Placed(p, cells[p], ranges) && Fits(p, cells[p]);
      assert HeadAt(cells, head, p);
      hide HeapOk;
    }

    // Segment i holds nothing but its first chunk.
    ghost predicate Releasable(i: nat)
      reads this
    {
      0 < i < |segs| && |ids| == |segs| && segs[i].base in cells && Vacant(segs[i], head)
    }

    // release_unused_segments: segments that hold no chunk in use are unmapped.
    method ReleaseUnusedSegments() returns (released: nat, ghost calls: seq<Call>)
      requires Valid()
      modifies this`cells, this`ranges, this`ids, this`segs, this`dv, this`dvsize, this`releaseChecks, this`log, bins
      ensures Valid() && Blocks(cells) == old(Blocks(cells)) && releaseChecks == ReleaseRate(old(segs))
      ensures log == old(log) + calls
      ensures NoneVacant(segs, head, calls)
      ensures Released(old(Now()).(checks := releaseChecks), old(segs), calls, Now(), segs, head)
      ensures |segs| <= |old(segs)| && (released > 0 <==> |segs| < |old(segs)|)
    {
      hide HeapOk;
      hide SegsOk;
      hide DirectOk;
      hide Blocks;
      hide Bins.Valid, Released, Vacant;
      released, calls := 0, [];
      var nsegs, i := 0, 1;
      SomeSegment();
      ReleasedNothing(Now(), segs, head);
      while i < |segs|
        invariant Valid() && Blocks(cells) == old(Blocks(cells)) && 1 <= i <= |segs|
        invariant log == old(log) + calls
        invariant forall j :: 0 < j < i && j < |segs| && Vacant(segs[j], head) ==>
          Munmap(segs[j].base, segs[j].size, false) in calls
        invariant Released(old(Now()), old(segs), calls, Now(), segs, head) && |segs| <= |old(segs)|
        invariant released > 0 <==> |segs| < |old(segs)|
        invariant nsegs == i - 1 + (|old(segs)| - |segs|) && releaseChecks == old(releaseChecks)
        decreases |segs| - i
      {
        FirstChunk(i);
        var base, size := segs[i].base, segs[i].size;
        nsegs := nsegs + 1;
        var psize := head[base].size;
        var gone := false;
        ghost var t1, segs1 := Now(), segs;
        VacantSays(i);
        if !head[base].cinuse && base + psize >= base + size - TOP_FOOT_SIZE {
          gone := ReleaseSegment(i);
          ghost var c := Munmap(base, size, gone);
          ReleasedAlso(old(Now()), old(segs), calls, t1, segs1, c, Now(), segs, head);
          calls := calls + [c];
        }
        if gone {
          released := released + size;
        } else {
          i := i + 1;
        }
      }
      Recounted(old(Now()), old(segs), calls, Now(), segs, head, trimCheck, ReleaseRate(old(segs)));
      releaseChecks := if nsegs > MAX_RELEASE_CHECK_RATE then nsegs else MAX_RELEASE_CHECK_RATE;
    }

    lemma SomeSegment()
      requires Valid()
      ensures segs != []
    {
      hide HeapOk, Bins.Valid;
    }

    lemma VacantSays(i: nat)
      requires Valid() && 0 < i < |segs|
      ensures segs[i].base in head && |ids| == |segs| && segs[i].base in cells
      ensures var g := segs[i];
        Vacant(g, head) <==> !head[g.base].cinuse && g.base + head[g.base].size >= g.base + g.size - TOP_FOOT_SIZE
    {
      FirstChunk(i);
    }

    // The free chunk that fills segment i leaves the bins; if the segment cannot be unmapped, it goes back.
    method ReleaseSegment(i: nat) returns (gone: bool)
      requires Valid() && Releasable(i)
      modifies this`cells, this`ranges, this`ids, this`segs, this`dv, this`dvsize, this`log, bins
      ensures Valid() && Blocks(cells) == old(Blocks(cells))
      ensures gone ==> segs == old(segs)[..i] + old(segs)[i + 1..]
      ensures !gone ==> segs == old(segs)
      ensures var c := Munmap(old(segs[i].base), old(segs[i].size), gone);
        log == old(log) + [c] && Released(old(Now()), old(segs), [c], Now(), segs, head)
    {
      hide Bins.Valid, HeapOk, SegsOk, DirectOk, IsBinned, IsVictim, Blocks, Released, IsTop, WithoutSegment;
      hide WithKind, IsSmall;
      var p, psize := segs[i].base, head[segs[i].base].size;
      ReleaseChunk(i);
      ReleaseGone(i);
      ReleaseFailed(i);
      EitherWay(i);
      BinnedHeads(cells, ranges, head, foot, bins.sizes);
      DropFree(p);
      gone := CallMunmap(segs[i].base, segs[i].size);
      if gone {
        ForgetSegment(i);
      } else {
        bins.InsertLarge(p, psize, ChunkSizes());
        cells := WithKind(cells, p, Binned);
      }
    }

    method ForgetSegment(i: nat)
      requires i < |segs| && |ids| == |segs| && bins.Valid()
      requires var c, segs', ids' := WithoutSegment(cells, ids[i]), segs[..i] + segs[i + 1..], ids[..i] + ids[i + 1..];
        && HeapOk(c, ranges - {ids[i]}, head, foot) && IsBinned(c, bins.sizes) && IsVictim(c, dv, dvsize)
        && IsTop(c, top, topsize) && Blocks(c) == Blocks(cells) && ids' != [] && top in c && c[top].seg == ids'[0]
        && SegsOk(segs', ids', ranges - {ids[i]}) && DirectOk(direct, asked, ranges - {ids[i]})
      modifies this`cells, this`ranges, this`ids, this`segs
      ensures Valid() && Blocks(cells) == old(Blocks(cells))
      ensures segs == old(segs)[..i] + old(segs)[i + 1..]
    {
      hide Bins.Valid, HeapOk, SegsOk, DirectOk, IsBinned, IsVictim, Blocks, IsTop, WithoutSegment;
      ghost var s := ids[i];
      segs := segs[..i] + segs[i + 1..];
      ids := ids[..i] + ids[i + 1..];
      ranges, cells := ranges - {s}, WithoutSegment(cells, s);
    }

    // What is left, should segment i be unmapped, or not.
    lemma EitherWay(i: nat)
      requires Valid() && Releasable(i)
      ensures var g, p, psize := segs[i], segs[i].base, head[segs[i].base].size;
        var left := Now().(sizes := bins.sizes - {p}, dv := if p == dv then 0 else dv,
          dvsize := if p == dv then 0 else dvsize);
        && Released(Now(), segs, [Munmap(p, g.size, true)], left, segs[..i] + segs[i + 1..], head)
        && Released(Now(), segs, [Munmap(p, g.size, false)], left.(sizes := left.sizes[p := psize]), segs, head)
    {
      hide HeapOk, SegsOk, DirectOk, Bins.Valid, IsBinned, IsVictim, IsTop, Released;
      ReleaseChunk(i);
      BasesDiffer(i);
      ReleasedOne(Now(), segs, head, i, head[segs[i].base].size, true);
      ReleasedOne(Now(), segs, head, i, head[segs[i].base].size, false);
    }

    lemma BasesDiffer(i: nat)
      requires SegsOk(segs, ids, ranges) && i < |segs|
      ensures forall j :: 0 <= j < |segs| && j != i ==> segs[j].base != segs[i].base
    {
      forall j | 0 <= j < |segs| && j != i ensures segs[j].base != segs[i].base {
        var lo, hi := if i < j then i else j, if i < j then j else i;
        assert Disjoint(segs[lo].base, SegEnd(segs[lo]), segs[hi].base, SegEnd(segs[hi]));
      }
    }

    // A large free chunk is taken out of its bin, or is the victim no more.
    method DropFree(p: Addr)
      requires bins.Valid() && if p == dv then bins.sizes - {p} == bins.sizes
        else p in bins.sizes && !IsSmall(bins.sizes[p])
      modifies this`dv, this`dvsize, bins
      ensures bins.Valid() && bins.sizes == old(bins.sizes) - {p}
      ensures dv == (if p == old(dv) then 0 else old(dv)) && dvsize == if p == old(dv) then 0 else old(dvsize)
    {
      hide Bins.Valid;
      if p == dv {
        dv, dvsize := 0, 0;
      } else {
        bins.UnlinkLarge(p);
      }
    }

    lemma ReleaseChunk(i: nat)
      requires Valid() && Releasable(i)
      ensures var p := segs[i].base;
        && IsFree(cells[p].kind) && (cells[p].kind.Victim? <==> p == dv) && head[p].size == cells[p].size
        && ChunkSize(cells[p].size) && !IsSmall(cells[p].size) && p > 0
        && (p == dv ==> bins.sizes - {p} == bins.sizes && p !in bins.sizes && dvsize == cells[p].size) &&
          (p != dv ==> p in bins.sizes && bins.sizes[p] == cells[p].size)
        && ids[i] in ranges && ranges[ids[i]] == Range(p, SegEnd(segs[i])) && ids[i] != ids[0]
    {
      hide HeapOk, SegsOk, DirectOk, Bins.Valid;
      FirstChunk(i);
      GranularSize(segs[i].size);
      assert segs[i].base == dv ==> bins.sizes - {dv} == bins.sizes;
    }

    // The segment is unmapped.
    lemma ReleaseGone(i: nat)
      requires Valid() && Releasable(i)
      ensures var p, s, c := segs[i].base, ids[i], WithoutSegment(cells, ids[i]);
        && HeapOk(c, ranges - {s}, head, foot) && IsBinned(c, bins.sizes - {p})
        && IsVictim(c, if p == dv then 0 else dv, if p == dv then 0 else dvsize) && IsTop(c, top, topsize)
        && Blocks(c) == Blocks(cells) && top in c && c[top].seg == ids[0]
        && SegsOk(segs[..i] + segs[i + 1..], ids[..i] + ids[i + 1..], ranges - {s})
        && (ids[..i] + ids[i + 1..])[0] == ids[0] && DirectOk(direct, asked, ranges - {s})
    {
      hide SegsOk, Tiled, Coalesced, Covering, Tagged, IsBinned, IsVictim, Blocks;
      ReleaseChunk(i);
      var p, s := segs[i].base, ids[i];
      WithoutSegmentOk(cells, ranges, head, foot, s);
      ReleasedKept(cells, ranges, s, p, bins.sizes, dv, dvsize, top, topsize);
      RemovedOk(segs, ids, ranges, i, segs[..i] + segs[i + 1..], ids[..i] + ids[i + 1..]);
    }

    lemma NotABlockOf(c: Cells, p: Addr)
      requires p in c && !c[p].kind.User?
      ensures Blocks(c) - {p} == Blocks(c)
    {
    }

    // It is not: its chunk is in a bin again.
    lemma ReleaseFailed(i: nat)
      requires Valid() && Releasable(i)
      ensures var p := segs[i].base; var c := WithKind(cells, p, Binned);
        && HeapOk(c, ranges, head, foot) && IsBinned(c, (bins.sizes - {p})[p := cells[p].size])
        && IsVictim(c, if p == dv then 0 else dv, if p == dv then 0 else dvsize) && IsTop(c, top, topsize)
        && Blocks(c) == Blocks(cells) && top in c && c[top].seg == ids[0]
    {
      hide Bins.Valid;
      hide SegsOk;
      hide DirectOk;
      hide HeapOk;
      hide Blocks;
      ReleaseChunk(i);
      RetireOk(cells, ranges, head, foot, segs[i].base, Binned);
      BlocksWithKind(cells, segs[i].base, Binned);
      NotABlockOf(cells, segs[i].base);
    }

    // segment_holding: the segment this address lies in.
    method SegmentHolding(a: Addr) returns (i: nat)
      requires exists j :: 0 <= j < |segs| && SegmentHolds(segs[j], a)
      ensures i < |segs| && SegmentHolds(segs[i], a)
    {
      i := 0;
      while !SegmentHolds(segs[i], a)
        invariant i < |segs| && forall j :: 0 <= j < i ==> !SegmentHolds(segs[j], a)
        decreases |segs| - i
      {
        i := i + 1;
      }
    }

    // has_segment_link: some segment record lies in this segment.
    method HasSegmentLink(g: Segment) returns (linked: bool)
      ensures linked <==> exists j :: 0 <= j < |segs| && SegmentHolds(g, segs[j].at)
    {
      var j := 0;
      while j < |segs|
        invariant j <= |segs| && forall k :: 0 <= k < j ==> !SegmentHolds(g, segs[k].at)
      {
        if SegmentHolds(g, segs[j].at) {
          return true;
        }
        j := j + 1;
      }
      linked := false;
    }

    // alloc_trim: the end of the top is given back, in units of the granularity.
    method AllocTrim(pad: nat) returns (trimmed: bool, ghost shrink: seq<Call>, ghost calls: seq<Call>)
      requires Valid()
      modifies this`head, this`cells, this`ranges, this`ids, this`segs, this`dv, this`dvsize, this`releaseChecks,
               this`top, this`topsize, this`trimCheck, this`log, bins
      ensures Valid() && Blocks(cells) == old(Blocks(cells)) && top == old(top)
      ensures log == old(log) + shrink + calls
      ensures if pad < MAX_REQUEST then
          Trimmed(pad + TOP_FOOT_SIZE, shrink, calls, old(Now()), old(segs), Now(), segs, head)
        else shrink == [] && calls == [] && Now() == old(Now()) && segs == old(segs)
      ensures trimmed <==> topsize < old(topsize) || |segs| < |old(segs)|
    {
      hide HeapOk, SegsOk, DirectOk, Blocks, Bins.Valid, NoneVacant, Released, TopGiven, Trimmed;
      var released := 0;
      shrink, calls := [], [];
      if pad < MAX_REQUEST {
        released, shrink := TrimTop(pad + TOP_FOOT_SIZE);
        var more;
        ghost var t, segs1 := Now(), segs;
        more, calls := ReleaseUnusedSegments();
        released := released + more;
        TrimmedBoth(pad + TOP_FOOT_SIZE, shrink, calls, old(Now()), old(segs), t, segs1, Now(), segs, head,
          if released == 0 && topsize > trimCheck then TWO64 - 1 else trimCheck);
        if released == 0 && topsize > trimCheck {
          trimCheck := TWO64 - 1;
        }
      }
      trimmed := released != 0;
    }

    // At least one unit of the top is kept.
    method TrimTop(pad: nat) returns (released: nat, ghost shrink: seq<Call>)
      requires Valid()
      modifies this`head, this`cells, this`ranges, this`segs, this`top, this`topsize, this`trimCheck,
               this`log
      ensures Valid() && Blocks(cells) == old(Blocks(cells)) && top == old(top) && topsize == old(topsize) - released
      ensures released > 0 ==> pad < topsize
      ensures |old(segs)| > 0 && TopGiven(shrink, old(topsize), pad, old(segs))
      ensures released == GivenBack(shrink, old(topsize), pad) && log == old(log) + shrink
      ensures trimCheck == if released > 0 then DEFAULT_TRIM_THRESHOLD else old(trimCheck)
      ensures released <= old(segs[0]).size
      ensures segs == old(segs)[0 := old(segs[0]).(size := old(segs[0]).size - released)]
    {
      hide Bins.Valid;
      hide HeapOk;
      hide SegsOk;
      hide DirectOk;
      hide Blocks;
      released, shrink := 0, [];
      TopInFirst();
      assert segs[0 := segs[0].(size := segs[0].size - 0)] == segs;
      if topsize > pad {
        var unit := DEFAULT_GRANULARITY;
        var extra := ((topsize - pad + (unit - 1)) / unit - 1) * unit;
        ExtraFits(topsize - pad, extra);
        assert SegmentHolds(segs[0], top);
        var i := SegmentHolding(top);
        var linked := HasSegmentLink(segs[i]);
        if segs[i].size >= extra && !linked {
          var newsize := segs[i].size - extra;
          var ok := CallMremap(segs[i].base, segs[i].size, newsize);
          shrink := [Mremap(segs[i].base, segs[i].size, newsize, ok)];
          if !ok {
            ok := CallMunmap(segs[i].base + newsize, extra);
            shrink := shrink + [Munmap(segs[i].base + newsize, extra, ok)];
          }
          if ok {
            released := extra;
          }
        }
        if released != 0 {
          ShrinkTop(i, released);
        }
      }
    }

    method ShrinkTop(i: nat, released: nat)
      requires Valid() && i < |segs| && SegmentHolds(segs[i], top) && 0 < released < topsize &&
        released % DEFAULT_GRANULARITY == 0
      modifies this`head, this`cells, this`ranges, this`segs, this`top, this`topsize, this`trimCheck
      ensures Valid() && Blocks(cells) == old(Blocks(cells)) && top == old(top) && topsize == old(topsize) - released
      ensures trimCheck == DEFAULT_TRIM_THRESHOLD
      ensures i == 0 && released <= old(segs[0]).size &&
        segs == old(segs)[0 := old(segs[0]).(size := old(segs[0]).size - released)]
    {
      hide Bins.Valid;
      hide HeapOk;
      hide SegsOk;
      hide DirectOk;
      hide IsBinned;
      hide IsVictim;
      hide Blocks;
      TopInFirst();
      ghost var cells', ranges' := TrimOk(i, released);
      segs := segs[i := segs[i].(size := segs[i].size - released)];
      InitTop(top, topsize - released);
      cells, ranges := cells', ranges';
    }

    lemma ExtraFits(n: nat, extra: int)
      requires n > 0 && extra == ((n + (DEFAULT_GRANULARITY - 1)) / DEFAULT_GRANULARITY - 1) * DEFAULT_GRANULARITY
      ensures 0 <= extra < n && extra % DEFAULT_GRANULARITY == 0
    {
    }

    lemma TrimOk(i: nat, less: nat) returns (cells': Cells, ranges': Ranges)
      requires Valid() && i < |segs| && SegmentHolds(segs[i], top) && 0 < less < topsize &&
        less % DEFAULT_GRANULARITY == 0
      ensures less < segs[i].size
      ensures var size := topsize - less;
        && HeapOk(cells', ranges',
          head[top := Head(size, false, true)][top + size := Head(TOP_FOOT_SIZE, false, false)], foot)
        && IsBinned(cells', bins.sizes) && IsVictim(cells', dv, dvsize) && IsTop(cells', top, size)
        && Blocks(cells') == Blocks(cells) && |ids| > 0 && cells'[top].seg == ids[0]
      ensures SegsOk(segs[i := segs[i].(size := segs[i].size - less)], ids, ranges') && DirectOk(direct, asked, ranges')
    {
      hide HeapOk;
      hide SegsOk;
      hide DirectOk;
      TopInFirst();
      assert i == 0;
      var size, g := topsize - less, segs[0].(size := segs[0].size - less);
      WholeUnits(topsize, segs[0].size, less);
      TrimFits(size);
      cells', ranges' := TailMoved(cells, top, size), EndMoved(cells, ranges, top, size);
      TailMovedOk(cells, ranges, head, foot, top, size,
                  head[top := Head(size, false, true)][top + size := Head(TOP_FOOT_SIZE, false, false)]);
      TailMovedKept(cells, bins.sizes, dv, dvsize, top, topsize, size);
      ShrunkSegment(g);
      assert ranges' == ranges[ids[0] := Range(g.base, SegEnd(g))];
    }

    lemma WholeUnits(topsize: nat, size: nat, less: nat)
      requires topsize % 8 == 0 && size % DEFAULT_GRANULARITY == 0 && less % DEFAULT_GRANULARITY == 0 &&
        less <= topsize <= size
      ensures (topsize - less) % 8 == 0 && (size - less) % DEFAULT_GRANULARITY == 0
    {
    }

    lemma TrimFits(size: nat)
      requires HeapOk(cells, ranges, head, foot) && IsTop(cells, top, topsize) && 0 < size < topsize && size % 8 == 0
      ensures CanMove(cells, top, size)
    {
      NothingInTail(cells, head, foot, top);
      assert Fits(After(cells, top), cells[After(cells, top)]);
      hide HeapOk;
    }

    lemma ShrunkSegment(g: Segment)
      requires MappingOk() && g.base == segs[0].base && 0 < g.size <= segs[0].size && g.size % DEFAULT_GRANULARITY == 0
      ensures SegsOk(segs[0 := g], ids, ranges[ids[0] := Range(g.base, SegEnd(g))])
      ensures DirectOk(direct, asked, ranges[ids[0] := Range(g.base, SegEnd(g))])
    {
      forall j | 0 < j < |segs| ensures Disjoint(g.base, SegEnd(g), segs[j].base, SegEnd(segs[j])) {
        assert Disjoint(segs[0].base, SegEnd(segs[0]), segs[j].base, SegEnd(segs[j]));
      }
      forall p | p in direct ensures Disjoint(g.base, SegEnd(g), p, MappedEnd(p, direct[p])) {
        assert Disjoint(p, MappedEnd(p, direct[p]), ranges[ids[0]].lo, ranges[ids[0]].hi);
      }
      ResizedSegs(segs, ids, ranges, 0, g, segs[0 := g], ranges[ids[0] := Range(g.base, SegEnd(g))]);
      ResizedDirect(direct, asked, ranges, ids[0], Range(g.base, SegEnd(g)));
    }

    // ---------------------------------------------------------------------- free

    // A chunk in use is being freed: the chunk before it, if binned, has already left its bin.
    ghost predicate Freeing(p: Addr, sizes: map<Addr, nat>)
      reads this, bins
    {
      && State(cells, ranges, head, foot, sizes, dv, dvsize, top, topsize) && bins.Valid() && MappingOk()
      && p in cells && cells[p].kind.User? && CanFree(cells, p) && After(cells, p) in head
      && bins.sizes == sizes - {MergedStart(cells, p)} && p !in sizes
    }

    // lj_alloc_free for a chunk of a segment. The top is trimmed if it has become too large; unused
    // segments are released now and then.
    method FreeChunk(p: Addr) returns (ghost shrink: seq<Call>, ghost calls: seq<Call>)
      requires Valid() && p in cells && cells[p].kind.User?
      modifies this`head, this`foot, this`cells, this`ranges, this`ids, this`segs, this`dv, this`dvsize,
               this`releaseChecks,
               this`top, this`topsize, this`trimCheck, this`log, bins
      ensures Valid() && Blocks(cells) == old(Blocks(cells)) - {p}
      ensures log == old(log) + shrink + calls
      ensures old(CanFree(cells, p)) && FreedInto(old(Consolidated(cells, p, Now())),
        old(MergedStart(cells, p)), shrink, calls, old(Now()), old(segs))
    {
      hide HeapOk, SegsOk, DirectOk, Blocks, Consolidated, MappingOk, Bins.Valid, Trimmed, Counted, IsBinned;
      hide IsVictim, IsTop;
      ghost var sizes := bins.sizes;
      UsedTags(cells, ranges, head, foot, p);
      WhereInto(p);
      shrink, calls := [], [];
      var next := p + head[p].size;
      var start, psize, done := MergeBack(p, next);
      if !done {
        if !head[next].cinuse {
          if next == top {
            FreeIntoTop(p, start, psize, sizes);
            if topsize > trimCheck {
              var trimmed;
              trimmed, shrink, calls := AllocTrim(0);
            }
          } else if next == dv {
            FreeIntoVictim(p, start, psize, sizes);
          } else {
            calls := FreeWithNext(p, start, psize, next, sizes);
          }
        } else {
          calls := FreeAlone(p, start, psize, next, sizes);
        }
      }
    }

    lemma WhereInto(p: Addr)
      requires Valid() && CanFree(cells, p)
      ensures var t := Consolidated(cells, p, Now());
        && (After(cells, p) == top ==> t.topsize > topsize) && (After(cells, p) != top ==> t.topsize == topsize)
        && (After(cells, p) != top && After(cells, p) == dv ==> t.dv == MergedStart(cells, p))
    {
      hide HeapOk, Bins.Valid, MappingOk;
      Unbinned(cells, Now());
      if After(cells, p) == top {
        IntoTop(cells, p, Now());
      }
    }

    // t is the stock after the consolidation at `start`. Then the top is trimmed if it was merged and is too
    // large, and unused segments are released each time so many large chunks went to bins.
    ghost predicate FreedInto(t: Stock, start: Addr, shrink: seq<Call>, calls: seq<Call>, before: Stock,
                              segs0: seq<Segment>)
      reads this, bins
    {
      if t.topsize != before.topsize && t.topsize > t.trimAt then
        Trimmed(TOP_FOOT_SIZE, shrink, calls, t, segs0, Now(), segs, head)
      else if t.topsize == before.topsize && start != t.dv && start in t.sizes && !IsSmall(t.sizes[start]) then
        shrink == [] && Counted(t, segs0, calls, Now(), segs, head)
      else shrink == [] && calls == [] && Now() == t && segs == segs0
    }

    // Consolidation with the chunk before; done if that is the victim and the next chunk is in use.
    method MergeBack(p: Addr, next: Addr) returns (start: Addr, psize: nat, done: bool)
      requires Valid() && p in cells && cells[p].kind.User? && next == After(cells, p)
      modifies this`head, this`foot, this`cells, this`dvsize, bins
      ensures done ==> Valid() && Blocks(cells) == old(Blocks(cells)) - {p}
      ensures done ==> old(CanFree(cells, p)) && Now() == old(Consolidated(cells, p, Now()))
      ensures done ==> dv == old(MergedStart(cells, p)) && topsize == old(topsize) && segs == old(segs)
      ensures !done ==> head == old(head) && foot == old(foot) && cells == old(cells) && dvsize == old(dvsize)
      ensures !done ==> Freeing(p, old(bins.sizes)) && start == MergedStart(cells, p) && psize == next - start
      ensures !done && !Fwd(cells, p) ==> start != dv
    {
      hide HeapOk;
      hide SegsOk;
      hide DirectOk;
      hide Bins.Valid;
      hide Blocks;
      UsedTags(cells, ranges, head, foot, p);
      start, psize, done := p, head[p].size, false;
      if !head[p].pinuse {
        var prevsize := foot[p].n;
        start := p - prevsize;
        psize := psize + prevsize;
        if start != dv {
          UnlinkChunk(start, prevsize);
        } else if head[next].cinuse && head[next].pinuse {
          FreeIntoVictimBefore(p, start, psize, next);
          done := true;
        }
      }
    }

    // Only the victim before it is merged with the chunk.
    method FreeIntoVictimBefore(p: Addr, start: Addr, psize: nat, next: Addr)
      requires Valid() && p in cells && cells[p].kind.User? && next == After(cells, p) && CanFree(cells, p)
      requires Back(cells, p) && !Fwd(cells, p) && start == MergedStart(cells, p) == dv && psize == next - start
      modifies this`head, this`foot, this`cells, this`dvsize
      ensures Valid() && Blocks(cells) == old(Blocks(cells)) - {p}
      ensures Now() == old(Consolidated(cells, p, Now()))
    {
      hide HeapOk;
      hide SegsOk;
      hide DirectOk;
      hide Bins.Valid;
      hide Blocks;
      hide IsBinned;
      hide IsVictim;
      hide IsTop;
      hide Merged;
      NextChunk(cells, ranges, head, foot, bins.sizes, dv, dvsize, top, topsize, p);
      VictimNotBinned();
      MergedFree(cells, ranges, head, foot, bins.sizes, dv, dvsize, top, topsize, p, start, next,
        head[next := HeadOf(next).(pinuse := false)]);
      assert bins.sizes - {start, next} == bins.sizes;
      ghost var cells' := Merged(cells, p);
      dvsize := psize;
      SetFreeBefore(start, psize, next);
      cells := cells';
    }

    // Consolidation with the top.
    method FreeIntoTop(p: Addr, start: Addr, psize: nat, ghost sizes: map<Addr, nat>)
      requires Freeing(p, sizes) && start == MergedStart(cells, p) && psize == After(cells, p) - start &&
        After(cells, p) == top
      modifies this`head, this`cells, this`dv, this`dvsize, this`top, this`topsize
      ensures Valid() && Blocks(cells) == old(Blocks(cells)) - {p}
      ensures Now() == old(Consolidated(cells, p, Now().(sizes := sizes)))
    {
      hide Consolidated, CanFree, HeapOk, SegsOk, DirectOk, IsBinned, IsVictim, IsTop, Bins.Valid, Blocks, Merged;
      IntoTopReady(p, start, sizes);
      ghost var cells' := Merged(cells, p);
      var tsize := topsize + psize;
      topsize := tsize;
      top := start;
      head := head[start := Head(tsize, false, true)];
      if start == dv {
        dv := 0;
        dvsize := 0;
      }
      cells := cells';
    }

    lemma IntoTopReady(p: Addr, start: Addr, sizes: map<Addr, nat>)
      requires Freeing(p, sizes) && start == MergedStart(cells, p) && After(cells, p) == top
      ensures var c, d, size := Merged(cells, p), if start == dv then 0 else dv, topsize + (top - start);
        && size >= 0 && HeapOk(c, ranges, head[start := Head(size, false, true)], foot) && bins.Valid()
        && Blocks(c) == Blocks(cells) - {p} && IsBinned(c, bins.sizes) && IsTop(c, start, size)
        && IsVictim(c, d, if start == dv then 0 else dvsize) && top > start
        && start in c && top in cells && c[start].seg == cells[top].seg
        && Consolidated(cells, p, Now().(sizes := sizes)) ==
             Now().(dv := d, dvsize := if start == dv then 0 else dvsize, top := start, topsize := size)
    {
      hide HeapOk, SegsOk, DirectOk, IsBinned, IsVictim, IsTop, Bins.Valid, Blocks, Merged, CanFree, Consolidated;
      hide MergedEnd, Back, Fwd;
      Unbinned(cells, Now().(sizes := sizes));
      IntoTop(cells, p, Now().(sizes := sizes));
      MergedTop(cells, ranges, head, foot, sizes, dv, dvsize, top, topsize, p, start, topsize + (top - start));
    }

    // Consolidation with the victim behind it.
    method FreeIntoVictim(p: Addr, start: Addr, psize: nat, ghost sizes: map<Addr, nat>)
      requires Freeing(p, sizes) && start == MergedStart(cells, p) && psize == After(cells, p) - start
      requires After(cells, p) == dv && dv != 0 && dv != top
      modifies this`head, this`foot, this`cells, this`dv, this`dvsize
      ensures Valid() && Blocks(cells) == old(Blocks(cells)) - {p}
      ensures Now() == old(Consolidated(cells, p, Now().(sizes := sizes)))
    {
      hide HeapOk;
      hide SegsOk;
      hide DirectOk;
      hide IsBinned;
      hide IsVictim;
      hide IsTop;
      hide Bins.Valid;
      hide Blocks;
      hide Merged;
      MergedVictimBehind(cells, ranges, head, foot, sizes, dv, dvsize, top, topsize, p, start, dvsize + psize);
      Unbinned(cells, Now().(sizes := sizes));
      IntoVictim(cells, p, Now().(sizes := sizes));
      ghost var cells' := Merged(cells, p);
      var dsize := dvsize + psize;
      dvsize := dsize;
      dv := start;
      SetFree(start, dsize);
      cells := cells';
    }

    // Consolidation with a binned chunk behind it; the result is the victim, or goes to a bin.
    method FreeWithNext(p: Addr, start: Addr, psize: nat, next: Addr, ghost sizes: map<Addr, nat>)
      returns (ghost calls: seq<Call>)
      requires Freeing(p, sizes) && start == MergedStart(cells, p) && next == After(cells, p) && psize == next - start
      requires Fwd(cells, p) && next != top && next != dv
      modifies this`head, this`foot, this`cells, this`ranges, this`ids, this`segs, this`dv, this`dvsize,
               this`releaseChecks, this`log, bins
      ensures Valid() && Blocks(cells) == old(Blocks(cells)) - {p}
      ensures log == old(log) + calls
      ensures var before := old(Now().(sizes := sizes));
        FreedInto(old(Consolidated(cells, p, Now().(sizes := sizes))), start, [], calls, before,
          old(segs))
    {
      hide HeapOk, SegsOk, DirectOk, IsBinned, IsVictim, IsTop, Bins.Valid, Blocks, Merged, Released;
      hide NoneVacant, Freeing, Consolidated;
      var size := MergeNext(p, start, psize, next, sizes);
      calls := [];
      if start != dv {
        calls := Binning(start, size);
      }
    }

    // Both are one free chunk, the victim's if that was before p; else it is in no bin yet.
    method MergeNext(p: Addr, start: Addr, psize: nat, next: Addr, ghost sizes: map<Addr, nat>) returns (size: nat)
      requires Freeing(p, sizes) && start == MergedStart(cells, p) && next == After(cells, p) && psize == next - start
      requires Fwd(cells, p) && next != top && next != dv
      modifies this`head, this`foot, this`cells, this`dvsize, bins
      ensures HeapOk(cells, ranges, head, foot) && bins.Valid() && MappingOk() && IsTop(cells, top, topsize)
      ensures Blocks(cells) == old(Blocks(cells)) - {p} && IsVictim(cells, dv, dvsize)
      ensures start == dv ==> IsBinned(cells, bins.sizes)
      ensures start != dv ==> start !in bins.sizes && IsBinned(cells, bins.sizes[start := size])
      ensures old(Consolidated(cells, p, Now().(sizes := sizes))) ==
        if start == dv then Now() else Now().(sizes := bins.sizes[start := size])
    {
      hide HeapOk, SegsOk, DirectOk, IsBinned, IsVictim, IsTop, Bins.Valid, Blocks, Merged;
      NextChunk(cells, ranges, head, foot, sizes, dv, dvsize, top, topsize, p);
      var nsize := head[next].size;
      MergedFree(cells, ranges, head, foot, sizes, dv, dvsize, top, topsize, p, start, next + nsize, head);
      ghost var cells' := Merged(cells, p);
      assert sizes - {start} - {next} == sizes - {start, next};
      UnlinkChunk(next, nsize);
      size := psize + nsize;
      SetFree(start, size);
      cells := cells';
      if start == dv {
        dvsize := size;
      }
    }

    // Both neighbours stay as they are.
    method FreeAlone(p: Addr, start: Addr, psize: nat, next: Addr, ghost sizes: map<Addr, nat>)
      returns (ghost calls: seq<Call>)
      requires Freeing(p, sizes) && start == MergedStart(cells, p) && next == After(cells, p) && psize == next - start
      requires !Fwd(cells, p) && start != dv
      modifies this`head, this`foot, this`cells, this`ranges, this`ids, this`segs, this`dv, this`dvsize,
               this`releaseChecks, this`log, bins
      ensures Valid() && Blocks(cells) == old(Blocks(cells)) - {p}
      ensures log == old(log) + calls
      ensures var before := old(Now().(sizes := sizes));
        FreedInto(old(Consolidated(cells, p, Now().(sizes := sizes))), start, [], calls, before,
          old(segs))
    {
      hide HeapOk;
      hide SegsOk;
      hide DirectOk;
      hide IsBinned;
      hide IsVictim;
      hide IsTop;
      hide Bins.Valid;
      hide Blocks;
      hide Merged;
      NextChunk(cells, ranges, head, foot, sizes, dv, dvsize, top, topsize, p);
      MergedFree(cells, ranges, head, foot, sizes, dv, dvsize, top, topsize, p, start, next,
        head[next := HeadOf(next).(pinuse := false)]);
      ghost var cells' := Merged(cells, p);
      assert sizes - {start, next} == sizes - {start};
      SetFreeBefore(start, psize, next);
      cells := cells';
      calls := Binning(start, psize);
    }

    // A chunk that is free by its tags goes to its bin; now and then, unused segments are released.
    method Binning(p: Addr, psize: nat) returns (ghost calls: seq<Call>)
      requires HeapOk(cells, ranges, head, foot) && bins.Valid() && MappingOk()
      requires p !in bins.sizes && IsBinned(cells, bins.sizes[p := psize]) && IsVictim(cells, dv, dvsize) &&
        IsTop(cells, top, topsize)
      modifies this`cells, this`ranges, this`ids, this`segs, this`dv, this`dvsize, this`releaseChecks, this`log, bins
      ensures Valid() && Blocks(cells) == old(Blocks(cells))
      ensures log == old(log) + calls
      ensures var t := old(Now()).(sizes := old(bins.sizes)[p := psize]);
        if IsSmall(psize) then calls == [] && Now() == t && segs == old(segs)
        else Counted(t, old(segs), calls, Now(), segs, head)
    {
      hide HeapOk, SegsOk, DirectOk, Blocks, Counted, IsVictim, IsBinned, IsTop;
      calls := [];
      BinnedHeads(cells, ranges, head, foot, bins.sizes[p := psize]);
      BinnedFits(p, psize);
      if IsSmall(psize) {
        bins.InsertSmall(p, psize);
      } else {
        bins.InsertLarge(p, psize, ChunkSizes());
        calls := CountDown();
      }
    }

    // Now and then, unused segments are released.
    method CountDown() returns (ghost calls: seq<Call>)
      requires Valid()
      modifies this`cells, this`ranges, this`ids, this`segs, this`dv, this`dvsize, this`releaseChecks, this`log, bins
      ensures Valid() && Blocks(cells) == old(Blocks(cells))
      ensures log == old(log) + calls
      ensures Counted(old(Now()), old(segs), calls, Now(), segs, head)
    {
      hide HeapOk, SegsOk, DirectOk, Blocks, Released, NoneVacant, Bins.Valid;
      calls := [];
      releaseChecks := (releaseChecks + TWO64 - 1) % TWO64;
      if releaseChecks == 0 {
        var released;
        released, calls := ReleaseUnusedSegments();
      }
    }

    lemma BinnedFits(p: Addr, psize: nat)
      requires HeapOk(cells, ranges, head, foot) && IsBinned(cells, bins.sizes[p := psize])
      ensures p > 0 && ChunkSize(psize)
    {
      assert p in bins.sizes[p := psize];
      assert Fits(p, cells[p]);
    }

    // ------------------------------------------------------------- system allocation

    // The segment right behind the new region, and with it the block and the rest of the region.
    lemma PrependReady(i: nat, tbase: Addr, tsize: nat, nb: nat, req: nat)
        returns (c: Cells, r: Ranges, h: map<Addr, Head>)
      requires Valid() && i < |segs| && Unmapped(tbase, tsize, segs, direct) && tbase + tsize == segs[i].base
      requires Granular(tsize)
      requires RoomFor(nb, req) && nb + MIN_CHUNK_SIZE <= tsize
      ensures Prependable(i, tbase, tsize, nb, req, c, r, h)
      ensures |ids| == |segs| && ids[i] in ranges && r == ranges[ids[i] := ranges[ids[i]].(lo := tbase)]
    {
      hide HeapOk;
      hide SegsOk;
      hide DirectOk;
      hide Unmapped;
      hide RoomFor;
      hide Granular;
      hide IsBinned;
      hide IsVictim;
      hide IsTop;
      hide Blocks;
      hide CanPrepend;
      hide Prepended;
      hide Bins.Valid;
      CanPrependHere(i, tbase, tsize, nb, req);
      c, r := Prepended(cells, tbase, segs[i].base, nb, req), ranges[ids[i] := ranges[ids[i]].(lo := tbase)];
      h := head[tbase := Head(nb, true, true)][tbase + nb := Head(tsize - nb, true, true)];
      PrependedHeap(cells, ranges, head, foot, tbase, segs[i].base, nb, req);
      PrependedKept(cells, ranges, bins.sizes, dv, dvsize, top, topsize, tbase, segs[i].base, nb, req);
      PrependedEnd(tbase, segs[i].base, nb, req);
    }

    lemma PrependMapping(i: nat, tbase: Addr, tsize: nat)
      requires MappingOk() && i < |segs| && Unmapped(tbase, tsize, segs, direct) && tbase + tsize == segs[i].base
      requires Granular(tsize) && |ids| == |segs| && ids[i] in ranges
      ensures var r := ranges[ids[i] := ranges[ids[i]].(lo := tbase)];
        SegsOk(segs[i := segs[i].(base := tbase, size := segs[i].size + tsize)], ids, r) && DirectOk(direct, asked, r)
    {
      hide SegsOk;
      hide DirectOk;
      var g := segs[i].(base := tbase, size := segs[i].size + tsize);
      GrownSegment(i, tbase, tsize, g);
      assert ranges[ids[i] := ranges[ids[i]].(lo := tbase)] == ranges[ids[i] := Range(g.base, SegEnd(g))];
    }

    // c, r and h are the heap where the new region is one block, and a rest that is still to be freed.
    ghost predicate Prependable(i: nat, tbase: Addr, tsize: nat, nb: nat, req: nat, c: Cells, r: Ranges,
                                h: map<Addr, Head>)
      requires i < |segs| && nb < tsize
      reads this, bins
    {
      var q := tbase + nb;
      && h == head[tbase := Head(nb, true, true)][q := Head(tsize - nb, true, true)]
      && State(c, r, h, foot, bins.sizes, dv, dvsize, top, topsize)
      && q in c && c[q] == Cell(tsize - nb, User(0), tbase, c[q].seg) && After(c, q) == segs[i].base
      && tbase in c && c[tbase].kind.User? && tbase !in cells && tbase > 0
      && Blocks(c) - {q} == Blocks(cells)[tbase := Block(req, nb)]
      && |ids| > 0 && top in c && c[top].seg == ids[0]
    }

    lemma PrependedEnd(tbase: Addr, first: Addr, nb: nat, req: nat)
      requires first in cells && tbase + nb < first
      ensures var c, q := Prepended(cells, tbase, first, nb, req), tbase + nb;
        q in c && After(c, q) == first && first in c
    {
    }

    lemma CanPrependHere(i: nat, tbase: Addr, tsize: nat, nb: nat, req: nat)
      requires Valid() && i < |segs| && Unmapped(tbase, tsize, segs, direct) && tbase + tsize == segs[i].base
      requires Granular(tsize)
      requires RoomFor(nb, req) && nb + MIN_CHUNK_SIZE <= tsize
      ensures CanPrepend(cells, ranges, tbase, segs[i].base, nb, req) && tbase > 0 && tbase !in cells
      ensures |ids| == |segs| && ids[i] in ranges && segs[i].base in cells && cells[segs[i].base].seg == ids[i]
      ensures ranges[ids[i]] == Range(segs[i].base, SegEnd(segs[i]))
    {
      hide SegsOk;
      hide DirectOk;
      FirstChunk(i);
      UnmappedUnused(tbase, tsize);
      FitPositive(cells);
      FirstOfSegment(segs[i].base);
      hide HeapOk;
    }

    lemma FirstOfSegment(first: Addr)
      requires HeapOk(cells, ranges, head, foot) && first in cells && cells[first].seg in ranges &&
        ranges[cells[first].seg].lo == first
      ensures cells[first].prev == 0 && !cells[first].kind.Tail? && first % 8 == 0
    {
      assert Placed(first, cells[first], ranges) && Fits(first, cells[first]);
    }

    // prepend_alloc: the block comes from the start of the region, and the rest of the region is
    // consolidated with the first chunk of the segment behind it.
    method PrependAlloc(i: nat, tbase: Addr, tsize: nat, nb: nat, ghost req: nat) returns (p: Addr)
      requires Valid() && i < |segs| && Unmapped(tbase, tsize, segs, direct) && tbase + tsize == segs[i].base
      requires Granular(tsize)
      requires RoomFor(nb, req) && nb + MIN_CHUNK_SIZE <= tsize
      modifies this`head, this`foot, this`cells, this`ranges, this`segs, this`dv, this`dvsize, this`top, this`topsize,
               bins
      ensures Valid() && p > 0 && p !in old(cells) && Blocks(cells) == old(Blocks(cells))[p := Block(req, nb)]
      ensures p == tbase && segs == old(segs)[i := Segment(tbase, old(segs[i]).size + tsize, old(segs[i]).at)]
      ensures Now() == Before(old(Now()), tbase + nb, tsize - nb, tbase + tsize)
    {
      hide HeapOk;
      hide SegsOk;
      hide DirectOk;
      hide Blocks;
      hide IsBinned;
      hide IsVictim;
      hide Granular;
      hide Bins.Valid;
      hide Unmapped;
      hide RoomFor;
      hide IsTop;
      ghost var c, r, h := PrependReady(i, tbase, tsize, nb, req);
      PrependMapping(i, tbase, tsize);
      var oldfirst := segs[i].base;
      segs := segs[i := segs[i].(base := tbase, size := segs[i].size + tsize)];
      p := tbase;
      var psize := oldfirst - p;
      var q, qsize := p + nb, psize - nb;
      SetInuseHead(p, nb);
      cells, ranges := c, r;
      PrependRest(q, qsize, oldfirst, h);
    }

    // The rest of the region is merged with what is behind it.
    method PrependRest(q: Addr, qsize: nat, oldfirst: Addr, ghost h: map<Addr, Head>)
      requires RestAt(q, qsize, h) && oldfirst == After(cells, q)
      modifies this`head, this`foot, this`cells, this`dv, this`dvsize, this`top, this`topsize, bins
      ensures Valid() && Blocks(cells) == old(Blocks(cells)) - {q}
      ensures Now() == Before(old(Now()), q, qsize, oldfirst)
    {
      hide HeapOk, SegsOk, DirectOk, Blocks, IsBinned, IsVictim, IsTop, Bins.Valid;
      if oldfirst == top {
        PrependTop(q, qsize, h);
      } else if oldfirst == dv {
        PrependVictim(q, qsize, h);
      } else {
        PrependBinned(q, qsize, oldfirst, h);
      }
    }

    // q is the rest of the region, its head not written yet; h is the tags with it.
    ghost predicate RestAt(q: Addr, qsize: nat, h: map<Addr, Head>)
      reads this, bins
    {
      && State(cells, ranges, h, foot, bins.sizes, dv, dvsize, top, topsize) && bins.Valid() && MappingOk()
      && q in cells && cells[q].kind.User? && cells[q].size == qsize
      && cells[q].prev in cells && cells[cells[q].prev].kind.User?
      && h == head[q := Head(qsize, true, true)]
    }

    method PrependTop(q: Addr, qsize: nat, ghost h: map<Addr, Head>)
      requires RestAt(q, qsize, h) && After(cells, q) == top
      modifies this`head, this`cells, this`top, this`topsize
      ensures Valid() && Blocks(cells) == old(Blocks(cells)) - {q}
      ensures top == q && topsize == old(topsize) + qsize
    {
      hide HeapOk;
      hide SegsOk;
      hide DirectOk;
      hide IsBinned;
      hide IsVictim;
      hide IsTop;
      hide Bins.Valid;
      hide Blocks;
      hide Merged;
      NextChunk(cells, ranges, h, foot, bins.sizes, dv, dvsize, top, topsize, q);
      MergedTop(cells, ranges, h, foot, bins.sizes, dv, dvsize, top, topsize, q, q, topsize + qsize);
      ghost var cells', head' := Merged(cells, q), h[q := Head(topsize + qsize, false, true)];
      topsize := topsize + qsize;
      top := q;
      head := head[q := Head(topsize, false, true)];
      assert head == head' && bins.sizes - {q} == bins.sizes;
      cells := cells';
    }

    method PrependVictim(q: Addr, qsize: nat, ghost h: map<Addr, Head>)
      requires RestAt(q, qsize, h) && After(cells, q) == dv && dv != top
      modifies this`head, this`foot, this`cells, this`dv, this`dvsize
      ensures Valid() && Blocks(cells) == old(Blocks(cells)) - {q}
      ensures dv == q && dvsize == old(dvsize) + qsize
    {
      hide HeapOk;
      hide SegsOk;
      hide DirectOk;
      hide IsBinned;
      hide IsVictim;
      hide IsTop;
      hide Bins.Valid;
      hide Blocks;
      hide Merged;
      NextChunk(cells, ranges, h, foot, bins.sizes, dv, dvsize, top, topsize, q);
      MergedVictimBehind(cells, ranges, h, foot, bins.sizes, dv, dvsize, top, topsize, q, q, dvsize + qsize);
      ghost var cells', head' := Merged(cells, q), h[q := Head(dvsize + qsize, false, true)];
      dvsize := dvsize + qsize;
      dv := q;
      SetFree(q, dvsize);
      assert head == head' && bins.sizes - {q} == bins.sizes;
      cells := cells';
    }

    // The rest of the region goes to a bin, together with the first chunk of the segment if that is free.
    method PrependBinned(q: Addr, qsize: nat, oldfirst: Addr, ghost h: map<Addr, Head>)
      requires RestAt(q, qsize, h) && oldfirst == After(cells, q) && oldfirst != top && oldfirst != dv
      modifies this`head, this`foot, this`cells, bins
      ensures Valid() && Blocks(cells) == old(Blocks(cells)) - {q}
      ensures bins.sizes == if oldfirst in old(bins.sizes)
        then (old(bins.sizes) - {oldfirst})[q := qsize + old(bins.sizes)[oldfirst]] else old(bins.sizes)[q := qsize]
    {
      hide HeapOk;
      hide SegsOk;
      hide DirectOk;
      hide IsBinned;
      hide IsVictim;
      hide IsTop;
      hide Bins.Valid;
      hide Blocks;
      hide Merged;
      ghost var sizes := bins.sizes;
      NextChunk(cells, ranges, h, foot, sizes, dv, dvsize, top, topsize, q);
      var next, size := oldfirst, qsize;
      if !head[next].cinuse {
        var nsize := head[next].size;
        UnlinkChunk(next, nsize);
        next := next + nsize;
        size := size + nsize;
      }
      ghost var h' := h[next := h[next].(pinuse := false)];
      MergedFree(cells, ranges, h, foot, sizes, dv, dvsize, top, topsize, q, q, next, h');
      SetFreeBefore(q, size, next);
      assert head == h'[q := Head(size, false, true)];
      assert sizes - {q, oldfirst} == bins.sizes;
      cells := Merged(cells, q);
      BinnedHeads(cells, ranges, head, foot, bins.sizes[q := size]);
      BinnedFits(q, size);
      InsertChunk(q, size);
    }

    // ------------------------------------------------------------- blocks of the user

    // All blocks handed out, in segments or with a mapping of their own.
    ghost function Live(): map<Addr, Block>
      reads this
    {
      LiveOf(Blocks(cells), direct, asked)
    }

    // A block at p for a request of req bytes was added to these.
    ghost predicate Gained(p: Addr, req: nat, before: map<Addr, Block>)
      reads this
    {
      && p > 0 && p !in before && p in Live() && Live() == before[p := Live()[p]]
      && Live()[p].req == req && Live()[p].size >= req + CHUNK_OVERHEAD
    }

    lemma ChunksNotDirect(p: Addr)
      requires HeapOk(cells, ranges, head, foot) && MappingOk() && p in cells
      ensures p !in direct && p > 0
    {
      assert Placed(p, cells[p], ranges) && Fits(p, cells[p]);
      assert p in direct ==> Disjoint(p, MappedEnd(p, direct[p]), ranges[cells[p].seg].lo, ranges[cells[p].seg].hi);
    }

    lemma GainedChunk(p: Addr, req: nat, size: nat, blocks: map<Addr, Block>)
      requires HeapOk(cells, ranges, head, foot) && MappingOk() && p !in blocks && size >= req + CHUNK_OVERHEAD
      requires Blocks(cells) == blocks[p := Block(req, size)]
      ensures Gained(p, req, LiveOf(blocks, direct, asked))
    {
      assert p in Blocks(cells);
      ChunksNotDirect(p);
      LiveOfMore(blocks, direct, asked, p, Block(req, size));
      hide HeapOk;
    }

    // alloc_sys: memory from the operating system; 0 if that fails, or the sizes wrap around.
    method AllocSys(nb: nat, ghost req: nat) returns (p: Addr, ghost answers: seq<Call>)
      requires Valid() && nb < TWO64 && (nb == TWO64 - 1 || RoomFor(nb, req))
      modifies this`head, this`foot, this`cells, this`ranges, this`ids, this`segs, this`dv, this`dvsize,
               this`top, this`topsize, this`trimCheck, this`direct, this`asked, this`log, bins
      ensures log == old(log) + answers
      ensures Valid() && (p != 0 ==> Gained(p, req, old(Live())))
      ensures p == 0 ==> Live() == old(Live()) && Now() == old(Now()) && segs == old(segs)
      ensures nb == TWO64 - 1 ==> p == 0
      ensures Answered(answers, nb, p)
      ensures p != 0 ==> Obtained(p, nb, answers, old(Now()), old(segs), old(direct))
    {
      hide HeapOk, SegsOk, DirectOk, IsBinned, IsVictim, IsTop, Unmapped, Blocks, Granular, LeastSize, Gained;
      ghost var blocks := Blocks(cells);
      if RoomFor(nb, req) {
        RequestBounds(nb, req);
      }
      answers := [];
      if nb >= DEFAULT_MMAP_THRESHOLD {
        p, answers := DirectAlloc(nb, req);
        if p != 0 {
          DirectGained(p, req, blocks, old(direct), old(asked));
          return;
        }
      }
      p := 0;
      var rsize := SysSize(nb);
      if rsize > nb {
        SysSizeBounds(nb, rsize);
        var ok, tbase := CallMmap(rsize);
        answers := answers + [Mmap(rsize, ok, tbase)];
        if ok {
          p := FromRegion(nb, tbase, rsize, req);
        }
      }
    }

    // The last mapping was granted: it is a direct chunk, where one was asked for, or a new region.
    ghost predicate Obtained(p: Addr, nb: nat, answers: seq<Call>, before: Stock, segs0: seq<Segment>,
                             direct0: map<Addr, Mapped>)
      reads this, bins
    {
      && answers != []
      && var a := answers[|answers| - 1];
         if nb >= DEFAULT_MMAP_THRESHOLD && MapSize(nb) > nb && |answers| == 1 then
           && p == a.base && p !in direct0 && p in direct && direct == direct0[p := direct[p]]
           && direct[p].offset == 0 && direct[p].psize + DIRECT_FOOT_PAD == a.size
           && segs == segs0 && Now() == before
         else
           && direct == direct0 && RegionJoined(p, a, segs0, before.top, segs)
           && nb + TOP_FOOT_SIZE <= a.size && Now() == Supplied(before, nb, a, segs0)
    }

    // The new region joins the segments, and the chunk is taken from it.
    method FromRegion(nb: nat, tbase: Addr, rsize: nat, ghost req: nat) returns (p: Addr)
      requires Valid() && RoomFor(nb, req) && Unmapped(tbase, rsize, segs, direct) && Granular(rsize)
      requires rsize > nb + TOP_FOOT_SIZE
      modifies this`head, this`foot, this`cells, this`ranges, this`ids, this`segs, this`dv, this`dvsize,
               this`top, this`topsize, this`trimCheck, bins
      ensures Valid() && p != 0 && Gained(p, req, old(Live()))
      ensures RegionJoined(p, Mmap(rsize, true, tbase), old(segs), old(top), segs)
      ensures Now() == Supplied(old(Now()), nb, Mmap(rsize, true, tbase), old(segs))
    {
      hide HeapOk, SegsOk, DirectOk, IsBinned, IsVictim, IsTop, Unmapped, Blocks, Granular, LeastSize, LiveOf;
      hide Kept, RegionJoined, Supplied, Pushed, Before, Bins.Valid, Gained, SegmentHolds;
      ghost var blocks := Blocks(cells);
      RequestBounds(nb, req);
      EndsInOrder();
      ghost var a, t, segs0 := Mmap(rsize, true, tbase), Now(), segs;
      var held, i := FindSegment(tbase, true);
      if held && SegmentHolds(segs[i], top) {
        Append(i, rsize);
        p := TakeTop(nb, req);
        JoinedBehind(a, segs0, t, nb);
      } else {
        var before, j := FindSegment(tbase + rsize, false);
        if before {
          p := PrependAlloc(j, tbase, rsize, nb, req);
          NotABlock(p, old(cells));
          GainedChunk(p, req, nb, blocks);
          JoinedBefore(a, segs0, t, nb, j);
        } else {
          AddSegment(tbase, rsize);
          p := TakeTop(nb, req);
          JoinedNew(a, segs0, t, nb, segs);
        }
      }
    }

    method TakeTop(nb: nat, ghost req: nat) returns (p: Addr)
      requires Valid() && nb < topsize && RoomFor(nb, req)
      modifies this`head, this`cells, this`top, this`topsize
      ensures Valid() && p == old(top) && p != 0 && Gained(p, req, old(Live()))
      ensures top == p + nb && topsize == old(topsize) - nb
    {
      hide HeapOk, SegsOk, DirectOk, IsBinned, IsVictim, IsTop, Blocks, Bins.Valid, LiveOf, LeastSize;
      ghost var blocks := Blocks(cells);
      RequestBounds(nb, req);
      p := FromTop(nb, req);
      GainedChunk(p, req, nb, blocks);
    }

    // Only the current segment ends where it ends, and it holds the top.
    lemma EndsInOrder()
      requires Valid()
      ensures |segs| > 0 && SegmentHolds(segs[0], top)
      ensures forall i :: 0 < i < |segs| ==> SegEnd(segs[i]) != SegEnd(segs[0])
    {
      hide Bins.Valid;
      TopInFirst();
      forall i | 0 < i < |segs| ensures SegEnd(segs[i]) != SegEnd(segs[0]) {
        assert Disjoint(segs[0].base, SegEnd(segs[0]), segs[i].base, SegEnd(segs[i]));
      }
    }

    lemma NotABlock(p: Addr, c: Cells)
      requires p !in c
      ensures p !in Blocks(c)
    {
    }

    lemma DirectGained(p: Addr, req: nat, blocks: map<Addr, Block>, direct0: map<Addr, Mapped>, asked0: map<Addr, nat>)
      requires MappingOk() && p > 0 && p !in cells && p in direct && p !in direct0 && Blocks(cells) == blocks
      requires direct == direct0[p := direct[p]] && asked == asked0[p := req]
      ensures Gained(p, req, LiveOf(blocks, direct0, asked0))
    {
      hide SegsOk, Blocks, LiveOf;
      NotABlock(p, cells);
      GainedRoom(p, req);
      LiveOfDirect(blocks, direct0, asked0, p, direct[p], req);
    }

    lemma GainedRoom(p: Addr, req: nat)
      requires MappingOk() && p in direct && p in asked && asked[p] == req
      ensures direct[p].psize >= req + DIRECT_CHUNK_OVERHEAD
    {
      hide SegsOk;
    }

    lemma SysSizeBounds(nb: nat, rsize: nat)
      requires nb < TWO64 && rsize == SysSize(nb) && rsize > nb
      ensures Granular(rsize) && rsize > nb + TOP_FOOT_SIZE && nb != TWO64 - 1
    {
    }

    // --------------------------------------------------------------------- malloc

    // lj_alloc_malloc; 0 if there is no memory, or the request is too big.
    method MallocChunk(nsize: nat) returns (p: Addr, ghost answers: seq<Call>)
      requires Valid() && nsize < TWO64
      modifies this`head, this`foot, this`cells, this`ranges, this`ids, this`segs, this`dv, this`dvsize,
               this`top, this`topsize, this`trimCheck, this`direct, this`asked, this`log, bins
      ensures log == old(log) + answers
      ensures Valid() && (p != 0 ==> Gained(p, nsize, old(Live())))
      ensures p == 0 ==> Live() == old(Live()) && Now() == old(Now()) && segs == old(segs)
      ensures Granted(p, nsize, answers, old(Now()), old(segs), old(direct))
    {
      hide HeapOk, SegsOk, DirectOk, IsBinned, IsVictim, IsTop, Blocks, LeastSize, Bins.Valid;
      ghost var blocks := Blocks(cells);
      var nb := TWO64 - 1;
      answers := [];
      if nsize <= MAX_SMALL_REQUEST {
        nb := Request2Size(nsize);
        SizeBounds(nsize);
        p := SmallFromBins(nb, nsize);
        if p != 0 {
          LargeGained(p, nb, nsize, old(bins.sizes), old(cells));
          return;
        }
      } else if nsize >= MAX_REQUEST {
        nb := TWO64 - 1;
      } else {
        nb := PadRequest(nsize);
        SizeBounds(nsize);
        if bins.treemap != 0 {
          p := TMallocLarge(nb, nsize);
          if p != 0 {
            LargeGained(p, nb, nsize, old(bins.sizes), old(cells));
            return;
          }
        } else {
          NoTrees(nb);
        }
      }
      VictimBounds();
      TopBounds();
      p, answers := FromRest(nb, nsize);
    }

    // The end of lj_alloc_malloc, when no bin serves the request.
    method FromRest(nb: nat, nsize: nat) returns (p: Addr, ghost answers: seq<Call>)
      requires Valid() && (nb == TWO64 - 1 || RoomFor(nb, nsize)) && nb < TWO64 && dvsize < LIMIT && topsize < LIMIT
      modifies this`head, this`foot, this`cells, this`ranges, this`ids, this`segs, this`dv, this`dvsize,
               this`top, this`topsize, this`trimCheck, this`direct, this`asked, this`log, bins
      ensures log == old(log) + answers
      ensures Valid() && (p != 0 ==> Gained(p, nsize, old(Live())))
      ensures p == 0 ==> Live() == old(Live()) && Now() == old(Now()) && segs == old(segs)
      ensures nb == TWO64 - 1 ==> p == 0
      ensures if nb <= old(dvsize) || nb < old(topsize) then
          && p != 0 && answers == [] && segs == old(segs) && direct == old(direct)
          && (if nb <= old(dvsize) then VictimUsed(p, nb, old(Now()), Now()) else TopUsed(p, nb, old(Now()), Now()))
        else Answered(answers, nb, p) && (p != 0 ==> Obtained(p, nb, answers, old(Now()), old(segs), old(direct)))
    {
      hide HeapOk, SegsOk, DirectOk, IsBinned, IsTop, Blocks, LeastSize, Bins.Valid, LiveOf, Obtained, Answered;
      hide VictimUsed, TopUsed;
      ghost var blocks := Blocks(cells);
      answers := [];
      if RoomFor(nb, nsize) {
        RequestBounds(nb, nsize);
      }
      if nb <= dvsize {
        p := FromVictim(nb, nsize);
        GainedChunk(p, nsize, cells[p].size, blocks);
      } else if nb < topsize {
        p := FromTop(nb, nsize);
        GainedChunk(p, nsize, nb, blocks);
      } else {
        p, answers := AllocSys(nb, nsize);
      }
    }

    // Where a request is served from: from the stock as long as that is enough; else it is up to the system.
    ghost predicate Granted(p: Addr, nsize: nat, answers: seq<Call>, before: Stock, segs0: seq<Segment>,
                            direct0: map<Addr, Mapped>)
      reads this, bins
    {
      if nsize >= MAX_REQUEST then p == 0
      else
        var nb := Request2Size(nsize);
        if Enough(nb, before) then
          p != 0 && answers == [] && Served(p, nb, before, Now()) && segs == segs0 && direct == direct0
        else
          Answered(answers, nb, p) && (p != 0 ==> Obtained(p, nb, answers, before, segs0, direct0))
    }

    lemma NoTrees(nb: nat)
      requires Valid() && bins.treemap == 0 && nb >= MIN_LARGE_SIZE
      ensures !HasFit(Now(), nb)
    {
      hide HeapOk, Bins.Valid;
      forall x | x in bins.sizes ensures bins.sizes[x] < nb {
        BinnedSize(bins, x);
      }
    }

    lemma SizeBounds(nsize: nat)
      requires nsize < MAX_REQUEST
      ensures var nb := Request2Size(nsize);
        && RoomFor(nb, nsize) && nb + 55 < TWO64 && nb >= nsize + CHUNK_OVERHEAD
        && (nsize <= MAX_SMALL_REQUEST ==> nb < MIN_LARGE_SIZE)
        && (nsize > MAX_SMALL_REQUEST ==> nb >= MIN_LARGE_SIZE && nb == PadRequest(nsize))
    {
    }

    lemma LargeGained(p: Addr, nb: nat, nsize: nat, sizes: map<Addr, nat>, before: Cells)
      requires Valid() && TookBest(p, nb, nsize, sizes, before) && nb >= nsize + CHUNK_OVERHEAD
      ensures p != 0 ==> Gained(p, nsize, LiveOf(Blocks(before), direct, asked))
    {
      hide HeapOk;
      hide SegsOk;
      hide DirectOk;
      GainedChunk(p, nsize, if sizes[p] - nb < MIN_CHUNK_SIZE then sizes[p] else nb, Blocks(before));
    }

    // lj_alloc_malloc, as the user sees it.
    method Malloc(nsize: nat) returns (mem: Addr, ghost answers: seq<Call>)
      requires Valid() && nsize < TWO64
      modifies this`head, this`foot, this`cells, this`ranges, this`ids, this`segs, this`dv, this`dvsize,
               this`top, this`topsize, this`trimCheck, this`direct, this`asked, this`log, bins
      ensures log == old(log) + answers
      ensures Valid() && (mem != 0 ==> mem > MEM_OFFSET && Gained(mem - MEM_OFFSET, nsize, old(Live())))
      ensures mem == 0 ==> Live() == old(Live()) && Now() == old(Now()) && segs == old(segs)
      ensures Granted(if mem == 0 then 0 else mem - MEM_OFFSET, nsize, answers, old(Now()), old(segs), old(direct))
    {
      var p;
      p, answers := MallocChunk(nsize);
      mem := if p == 0 then 0 else p + MEM_OFFSET;
    }

    // The memory of block p can be used again: a direct chunk is unmapped, any other is consolidated.
    ghost predicate Reclaimed(p: Addr, c0: Cells, direct0: map<Addr, Mapped>, t0: Stock, segs0: seq<Segment>,
                              shrink: seq<Call>, calls: seq<Call>)
      reads this, bins
    {
      && direct == direct0 - {p}
      && if p in direct0 then
           && Now() == t0 && segs == segs0 && shrink == [] && |calls| == 1
           && calls[0] == Munmap(p, direct0[p].psize + DIRECT_FOOT_PAD, calls[0].ok)
         else CanFree(c0, p) && FreedInto(Consolidated(c0, p, t0), MergedStart(c0, p), shrink, calls, t0, segs0)
    }

    // lj_alloc_free.
    method Free(mem: Addr) returns (ghost shrink: seq<Call>, ghost calls: seq<Call>)
      requires Valid() && (mem != 0 ==> mem - MEM_OFFSET in Live())
      modifies this`head, this`foot, this`cells, this`ranges, this`ids, this`segs, this`dv, this`dvsize,
               this`releaseChecks,
               this`top, this`topsize, this`trimCheck, this`direct, this`asked, this`log, bins
      ensures log == old(log) + shrink + calls
      ensures Valid() && Live() == if mem == 0 then old(Live()) else old(Live()) - {mem - MEM_OFFSET}
      ensures if mem == 0 then Now() == old(Now()) && segs == old(segs) && direct == old(direct) && log == old(log)
        else Reclaimed(mem - MEM_OFFSET, old(cells), old(direct), old(Now()), old(segs), shrink, calls)
    {
      hide HeapOk, SegsOk, DirectOk, IsBinned, IsVictim, IsTop, FreedInto, Consolidated;
      shrink, calls := [], [];
      if mem != 0 {
        var p := mem - MEM_OFFSET;
        if p in direct {
          calls := FreeDirect(p);
        } else {
          LiveOfMore(Blocks(cells), direct, asked, p, Block(0, 0));
          shrink, calls := FreeChunk(p);
        }
      }
    }

    // A direct chunk is unmapped.
    method FreeDirect(p: Addr) returns (ghost calls: seq<Call>)
      requires Valid() && p in direct
      modifies this`direct, this`asked, this`log
      ensures log == old(log) + calls && |calls| == 1
      ensures calls[0] == Munmap(p, old(direct[p].psize) + DIRECT_FOOT_PAD, calls[0].ok)
      ensures Valid() && Live() == old(Live()) - {p} && direct == old(direct) - {p}
    {
      hide HeapOk, SegsOk, DirectOk, IsBinned, IsVictim, IsTop, Bins.Valid, Blocks;
      var ok := CallMunmap(p, direct[p].psize + DIRECT_FOOT_PAD);
      calls := [Munmap(p, direct[p].psize + DIRECT_FOOT_PAD, ok)];
      DirectNotBlock(p);
      DirectRemoved(direct, asked, ranges, p);
      direct, asked := direct - {p}, asked - {p};
    }

    lemma DirectNotBlock(p: Addr)
      requires HeapOk(cells, ranges, head, foot) && MappingOk() && p in direct
      ensures LiveOf(Blocks(cells), direct - {p}, asked - {p}) == LiveOf(Blocks(cells), direct, asked) - {p}
    {
      hide HeapOk, SegsOk, DirectOk;
      if p in cells {
        ChunksNotDirect(p);
      }
    }

    // -------------------------------------------------------------------- realloc

    // set_inuse.
    method SetInuse(p: Addr, s: nat)
      requires s > 0
      modifies `head
      ensures head == old(head)[p := Head(s, true, old(HeadOf(p)).pinuse)][p + s := old(HeadOf(p + s)).(pinuse := true)]
    {
      head := head[p := Head(s, true, HeadOf(p).pinuse)];
      head := head[p + s := HeadOf(p + s).(pinuse := true)];
    }

    // What is behind the first nb bytes of p is freed as a chunk of its own.
    ghost predicate RestFreed(c0: Cells, p: Addr, nb: nat, req: nat, shrink: seq<Call>, calls: seq<Call>, t0: Stock,
                              segs0: seq<Segment>)
      reads this, bins
    {
      && p in c0 && nb < c0[p].size && After(c0, p) in c0
      && var c := Split(c0, p, nb, User(req), User(0));
         CanFree(c, p + nb) && FreedInto(Consolidated(c, p + nb, t0), MergedStart(c, p + nb), shrink, calls, t0, segs0)
    }

    // The chunk is already big enough; a rest that is large enough for a chunk is freed.
    method ShrinkInPlace(p: Addr, nb: nat, ghost req: nat) returns (ghost shrink: seq<Call>, ghost calls: seq<Call>)
      requires Valid() && p in cells && cells[p].kind.User? && cells[p].size >= nb && RoomFor(nb, req)
      modifies this`head, this`foot, this`cells, this`ranges, this`ids, this`segs, this`dv, this`dvsize,
               this`releaseChecks,
               this`top, this`topsize, this`trimCheck, this`log, bins
      ensures log == old(log) + shrink + calls
      ensures Valid()
      ensures var size := old(cells[p].size);
        Blocks(cells) == old(Blocks(cells))[p := Block(req, if size - nb < MIN_CHUNK_SIZE then size else nb)]
      ensures if old(cells[p].size) - nb < MIN_CHUNK_SIZE then Now() == old(Now()) && segs == old(segs)
        else RestFreed(old(cells), p, nb, req, shrink, calls, old(Now()), old(segs))
    {
      hide HeapOk, SegsOk, DirectOk, Bins.Valid, RestFreed, IsBinned, IsVictim, IsTop, Blocks;
      UsedTags(cells, ranges, head, foot, p);
      var oldsize := head[p].size;
      var rsize := oldsize - nb;
      if rsize >= MIN_CHUNK_SIZE {
        shrink, calls := FreeRest(p, nb, rsize, req);
      } else {
        shrink, calls := [], [];
        RequestChanged(cells, ranges, head, foot, bins.sizes, dv, dvsize, top, topsize, p, req);
        cells := WithKind(cells, p, User(req));
      }
    }

    method FreeRest(p: Addr, nb: nat, rsize: nat, ghost req: nat)
      returns (ghost shrink: seq<Call>, ghost calls: seq<Call>)
      requires Valid() && p in cells && cells[p].kind.User? && RoomFor(nb, req)
      requires rsize >= MIN_CHUNK_SIZE && cells[p].size == nb + rsize
      modifies this`head, this`foot, this`cells, this`ranges, this`ids, this`segs, this`dv, this`dvsize,
               this`releaseChecks,
               this`top, this`topsize, this`trimCheck, this`log, bins
      ensures log == old(log) + shrink + calls
      ensures Valid() && Blocks(cells) == old(Blocks(cells))[p := Block(req, nb)]
      ensures RestFreed(old(cells), p, nb, req, shrink, calls, old(Now()), old(segs))
    {
      hide HeapOk, SegsOk, DirectOk, Bins.Valid, FreedInto, Consolidated, IsBinned, IsVictim, IsTop, Blocks, Split;
      ghost var blocks := Blocks(cells);
      UsedTags(cells, ranges, head, foot, p);
      ShrinkOk(p, nb, req);
      ghost var head0, cells' := head, Split(cells, p, nb, User(req), User(0));
      var rem := p + nb;
      NotABlock(rem, cells);
      SetInuse(p, nb);
      ShrinkHeads(head0, p, nb, rsize, HeadOf(rem));
      SetInuse(rem, rsize);
      cells := cells';
      shrink, calls := FreeChunk(rem);
      TakenBack(blocks, p, Block(req, nb), rem, Block(0, rsize));
    }

    lemma TakenBack(blocks: map<Addr, Block>, p: Addr, x: Block, r: Addr, y: Block)
      requires r !in blocks && r != p
      ensures blocks[p := x][r := y] - {r} == blocks[p := x]
    {
    }

    lemma ShrinkHeads(h: map<Addr, Head>, p: Addr, nb: nat, rsize: nat, x: Head)
      requires p in h && p + nb + rsize in h && h[p + nb + rsize].pinuse && nb > 0 && rsize > 0 && x.pinuse
      ensures h[p := Head(nb, true, h[p].pinuse)][p + nb := x][p + nb := Head(rsize, true, x.pinuse)]
               [p + nb + rsize := h[p + nb + rsize].(pinuse := true)]
           == h[p := Head(nb, true, h[p].pinuse)][p + nb := Head(rsize, true, true)]
    {
    }

    lemma ShrinkOk(p: Addr, nb: nat, req: nat)
      requires Valid() && p in cells && cells[p].kind.User? && cells[p].size >= nb + MIN_CHUNK_SIZE && RoomFor(nb, req)
      ensures After(cells, p) in cells && p in head && 0 < nb < cells[p].size && p + nb !in cells
      ensures var c, rest := Split(cells, p, nb, User(req), User(0)), cells[p].size - nb;
        && HeapOk(c, ranges, head[p := Head(nb, true, head[p].pinuse)][p + nb := Head(rest, true, true)], foot)
        && IsBinned(c, bins.sizes) && IsVictim(c, dv, dvsize) && IsTop(c, top, topsize)
        && top in c && c[top].seg == ids[0] && p + nb in c && c[p + nb].kind.User?
        && Blocks(c) == Blocks(cells)[p := Block(req, nb)][p + nb := Block(0, rest)]
    {
      hide HeapOk;
      hide SegsOk;
      hide DirectOk;
      hide IsBinned;
      hide IsVictim;
      hide Blocks;
      hide Bins.Valid;
      UsedTags(cells, ranges, head, foot, p);
      ShrinkHeap(p, nb, req);
      KeptSplitUsed(cells, bins.sizes, dv, dvsize, top, topsize, p, nb, User(req), User(0));
    }

    lemma ShrinkHeap(p: Addr, nb: nat, req: nat)
      requires HeapOk(cells, ranges, head, foot)
      requires p in cells && cells[p].kind.User? && cells[p].size >= nb + MIN_CHUNK_SIZE && RoomFor(nb, req)
      ensures After(cells, p) in cells && p in head && 0 < nb < cells[p].size && p + nb !in cells && p + nb > 0
      ensures var c, rest := Split(cells, p, nb, User(req), User(0)), cells[p].size - nb;
        HeapOk(c, ranges, head[p := Head(nb, true, head[p].pinuse)][p + nb := Head(rest, true, true)], foot)
    {
      hide Tiled;
      hide Coalesced;
      hide Covering;
      hide Tagged;
      UsedTags(cells, ranges, head, foot, p);
      SplitTiled(cells, ranges, p, nb, User(req), User(0));
      SplitUsedOk(cells, ranges, head, foot, p, nb, User(req), User(0),
                  head[p := Head(nb, true, head[p].pinuse)][p + nb := Head(cells[p].size - nb, true, true)], foot);
    }

    // The chunk expands into the top.
    method GrowIntoTop(p: Addr, nb: nat, ghost req: nat)
      requires Valid() && p in cells && cells[p].kind.User? && RoomFor(nb, req)
      requires After(cells, p) == top && cells[p].size < nb < cells[p].size + topsize
      modifies this`head, this`cells, this`top, this`topsize
      ensures Valid() && Blocks(cells) == old(Blocks(cells))[p := Block(req, nb)]
      ensures top == p + nb && topsize == old(cells[p].size) + old(topsize) - nb
    {
      hide HeapOk;
      hide SegsOk;
      hide DirectOk;
      hide IsBinned;
      hide IsVictim;
      hide Blocks;
      hide TopShifted;
      hide Bins.Valid;
      UsedTags(cells, ranges, head, foot, p);
      var oldsize := head[p].size;
      var newsize := oldsize + topsize;
      var newtopsize := newsize - nb;
      var newtop := p + nb;
      ghost var head' := head[p := Head(nb, true, head[p].pinuse)][newtop := Head(newtopsize, false, true)];
      GrowOk(cells, ranges, head, foot, p, nb, req, head');
      GrowKept(cells, bins.sizes, dv, dvsize, top, topsize, p, nb, req);
      ghost var cells' := TopShifted(cells, p, nb, req);
      SetInuse(p, nb);
      head := head[newtop := Head(newtopsize, false, true)];
      assert head == head';
      top := newtop;
      topsize := newtopsize;
      cells := cells';
    }

    // Live blocks do not overlap: the memory of a block starts behind its head, and ends with the
    // first word of the chunk behind it.
    lemma LiveApart(p: Addr, q: Addr)
      requires Valid() && p in Live() && q in Live() && p != q
      ensures Disjoint(p + MEM_OFFSET, p + Live()[p].size + 8, q + MEM_OFFSET, q + Live()[q].size + 8)
    {
      ChunkBounds(p);
      ChunkBounds(q);
      assert p in direct && q in direct ==> Disjoint(p, MappedEnd(p, direct[p]), q, MappedEnd(q, direct[q]));
      assert p !in direct && q in direct ==>
        Disjoint(q, MappedEnd(q, direct[q]), ranges[cells[p].seg].lo, ranges[cells[p].seg].hi);
      assert q !in direct && p in direct ==>
        Disjoint(p, MappedEnd(p, direct[p]), ranges[cells[q].seg].lo, ranges[cells[q].seg].hi);
    }

    // Where a live block lies.
    lemma ChunkBounds(p: Addr)
      requires Valid() && p in Live()
      ensures if p in direct
        then p in asked && Live()[p] == Block(asked[p], direct[p].psize - 8) && direct[p].psize >= MEM_OFFSET
              else p in cells && cells[p].kind.User? && Live()[p] == Block(cells[p].kind.req, cells[p].size)
                   && cells[p].seg in ranges && ranges[cells[p].seg].lo <= p &&
                     After(cells, p) + MIN_CHUNK_SIZE <= ranges[cells[p].seg].hi
                   && After(cells, p) in cells
      ensures p > 0 && p % 8 == 0 && Live()[p].size >= Live()[p].req + CHUNK_OVERHEAD && p + Live()[p].size + 8 <= LIMIT
    {
      if p !in direct {
        var n := After(cells, p);
        FreeableAround(cells, p);
        assert Placed(p, cells[p], ranges) && Fits(p, cells[p]) && Follows(cells, p);
        assert Placed(n, cells[n], ranges) && Fits(n, cells[n]);
      }
    }

    // Users get memory that is aligned, as big as they asked for, and nobody else's: neither another
    // live block's, nor a word that the allocator reads or writes (the head of any chunk; all of a chunk
    // that is not a user's, with its links, its foot, or the marks at the end of a segment; the first
    // words of a direct chunk and the marks at its end).
    lemma UserMemory(p: Addr)
      requires Valid() && p in Live()
      ensures (p + MEM_OFFSET) % 8 == 0 && p + MEM_OFFSET + Live()[p].req <= p + Live()[p].size + 8
      ensures forall q :: q in Live() && q != p ==>
        Disjoint(p + MEM_OFFSET, p + Live()[p].size + 8, q + MEM_OFFSET, q + Live()[q].size + 8)
      ensures forall q :: q in cells ==> Disjoint(p + MEM_OFFSET, p + Live()[p].size + 8, q + 8, q + 16)
      ensures forall q :: q in cells && !cells[q].kind.User? ==>
        Disjoint(p + MEM_OFFSET, p + Live()[p].size + 8, q + 8, q + cells[q].size + if IsFree(cells[q].kind) then 8
          else 0)
      ensures forall q :: q in direct ==>
        Disjoint(p + MEM_OFFSET, p + Live()[p].size + 8, q, q + MEM_OFFSET) &&
          Disjoint(p + MEM_OFFSET, p + Live()[p].size + 8, q + direct[q].psize + 8, MappedEnd(q, direct[q]))
    {
      hide HeapOk;
      hide SegsOk;
      hide DirectOk;
      hide Kept;
      hide Bins.Valid;
      hide LiveOf;
      hide Blocks;
      if p in cells {
        ChunksNotDirect(p);
      }
      ChunkBounds(p);
      forall q | q in Live() && q != p
        ensures Disjoint(p + MEM_OFFSET, p + Live()[p].size + 8, q + MEM_OFFSET, q + Live()[q].size + 8)
      {
        LiveApart(p, q);
      }
      forall q | q in cells && q != p
        ensures Disjoint(p + MEM_OFFSET, p + Live()[p].size + 8, q + 8, q + 16)
        ensures !cells[q].kind.User? ==>
          Disjoint(p + MEM_OFFSET, p + Live()[p].size + 8, q + 8, q + cells[q].size + if IsFree(cells[q].kind) then 8
            else 0)
      {
        OtherChunk(p, q);
      }
      forall q | q in direct
        ensures Disjoint(p + MEM_OFFSET, p + Live()[p].size + 8, q, q + MEM_OFFSET)
        ensures Disjoint(p + MEM_OFFSET, p + Live()[p].size + 8, q + direct[q].psize + 8, MappedEnd(q, direct[q]))
      {
        DirectMarks(p, q);
      }
    }

    lemma OtherChunk(p: Addr, q: Addr)
      requires Valid() && p in Live() && q in cells && q != p
      ensures Disjoint(p + MEM_OFFSET, p + Live()[p].size + 8, q + 8, q + 16)
      ensures !cells[q].kind.User? ==>
        Disjoint(p + MEM_OFFSET, p + Live()[p].size + 8, q + 8, q + cells[q].size + if IsFree(cells[q].kind) then 8
          else 0)
    {
      ChunkBounds(p);
      assert Placed(q, cells[q], ranges) && Fits(q, cells[q]);
      if !cells[q].kind.Tail? {
        assert Follows(cells, q);
        assert Placed(After(cells, q), cells[After(cells, q)], ranges) && Fits(After(cells, q), cells[After(cells, q)]);
      }
      assert p in direct ==> Disjoint(p, MappedEnd(p, direct[p]), ranges[cells[q].seg].lo, ranges[cells[q].seg].hi);
    }

    // The first words of a direct chunk, and the marks at its end.
    lemma DirectMarks(p: Addr, q: Addr)
      requires Valid() && p in Live() && q in direct
      ensures Disjoint(p + MEM_OFFSET, p + Live()[p].size + 8, q, q + MEM_OFFSET)
      ensures Disjoint(p + MEM_OFFSET, p + Live()[p].size + 8, q + direct[q].psize + 8, MappedEnd(q, direct[q]))
    {
      hide HeapOk;
      hide Kept;
      hide Bins.Valid;
      ChunkBounds(p);
      if p !in direct {
        assert Disjoint(q, MappedEnd(q, direct[q]), ranges[cells[p].seg].lo, ranges[cells[p].seg].hi);
      } else if p != q {
        assert Disjoint(p, MappedEnd(p, direct[p]), q, MappedEnd(q, direct[q]));
      }
    }

    // ---------------------------------------------------------------------- the user's data

    // memcpy; the regions must not overlap.
    method CopyBytes(dst: Addr, src: Addr, n: nat)
      requires Disjoint(dst, dst + n, src, src + n)
      modifies `bytes
      ensures Data(bytes, dst, n) == Data(old(bytes), src, n) && SameData(old(bytes), bytes, dst, dst + n)
    {
      var i := 0;
      while i < n
        invariant i <= n
        invariant Data(bytes, dst, i) == Data(old(bytes), src, i) && SameData(old(bytes), bytes, dst, dst + i)
      {
        ghost var before := bytes;
        bytes := bytes[dst + i := ByteAt(bytes, src + i)];
        assert ByteAt(before, src + i) == ByteAt(old(bytes), src + i);
        DataGrows(old(bytes), src, i);
        DataGrows(bytes, dst, i);
        DataElsewhere(before, dst, i, dst + i, ByteAt(before, src + i));
        i := i + 1;
      }
    }

    // Block p was replaced by a block at q for req bytes.
    ghost predicate Resized(p: Addr, q: Addr, req: nat, before: map<Addr, Block>)
      reads this
    {
      && q > 0 && (q != p ==> q !in before) && q in Live() && Live() == (before - {p})[q := Live()[q]]
      && Live()[q].req == req && Live()[q].size >= req + CHUNK_OVERHEAD
    }

    // lj_alloc_realloc; 0 if there is no memory, and then nothing has changed.
    method Realloc(mem: Addr, nsize: nat) returns (newmem: Addr, ghost tried: seq<Call>, ghost answers: seq<Call>)
      requires Valid() && nsize < TWO64 && mem - MEM_OFFSET in Live()
      modifies this`head, this`foot, this`cells, this`ranges, this`ids, this`segs, this`dv, this`dvsize,
               this`releaseChecks,
               this`top, this`topsize, this`trimCheck, this`direct, this`asked, this`bytes, this`log, bins
      ensures Valid() && (newmem == 0 ==> Live() == old(Live()) && bytes == old(bytes))
      ensures newmem == 0 ==> Now() == old(Now()) && segs == old(segs)
      ensures newmem != 0 ==> Resized(mem - MEM_OFFSET, newmem - MEM_OFFSET, nsize, old(Live()))
      ensures nsize < MAX_REQUEST ==>
        (newmem == mem <==> old(Resizable(mem - MEM_OFFSET, Request2Size(nsize), tried)))
      ensures newmem == 0 ==> nsize >= MAX_REQUEST || AllRefused(Request2Size(nsize), answers, old(Now()))
      ensures nsize >= MAX_REQUEST ==> newmem == 0 && log == old(log)
      ensures nsize < MAX_REQUEST && newmem == 0 ==> log == old(log) + tried + answers
      ensures nsize < MAX_REQUEST ==>
        tried == old(DirectTried(mem - MEM_OFFSET, Request2Size(nsize), newmem == mem))
      ensures newmem != 0 ==>
        var n := Min(nsize, Usable(old(Live())[mem - MEM_OFFSET])); Data(bytes, newmem, n) == Data(old(bytes), mem, n)
      ensures newmem != 0 ==> SameData(old(bytes), bytes, newmem, newmem + nsize)
    {
      hide LiveOf;
      hide Blocks;
      hide Kept;
      hide SegsOk;
      hide Bins.Valid;
      hide HeapOk;
      hide DirectOk;
      hide IsBinned;
      hide IsVictim;
      hide IsTop;
      tried, answers := [], [];
      if nsize >= MAX_REQUEST {
        return 0, tried, answers;
      }
      var p := mem - MEM_OFFSET;
      ghost var live := Live();
      ChunkBounds(p);
      SizeBounds(nsize);
      var newp;
      newp, tried := ResizeInPlace(p, Request2Size(nsize), nsize);
      if newp != 0 {
        newmem := newp + MEM_OFFSET;
      } else {
        newmem, answers := MoveBlock(p, nsize);
      }
    }

    // The chunk shrinks, is kept, or expands; 0 if it does none of that.
    method ResizeInPlace(p: Addr, nb: nat, ghost req: nat) returns (newp: Addr, ghost tried: seq<Call>)
      requires Valid() && p in Live() && RoomFor(nb, req) && nb + 55 < TWO64 && nb >= req + CHUNK_OVERHEAD
      modifies this`head, this`foot, this`cells, this`ranges, this`ids, this`segs, this`dv, this`dvsize,
               this`releaseChecks,
               this`top, this`topsize, this`trimCheck, this`direct, this`asked, this`log, bins
      ensures Valid() && (newp == 0 || newp == p)
      ensures newp == 0 ==> Live() == old(Live()) && Now() == old(Now()) && segs == old(segs) && direct == old(direct)
      ensures newp != 0 ==> Resized(p, p, req, old(Live()))
      ensures newp != 0 <==> old(Resizable(p, nb, tried))
      ensures tried == old(DirectTried(p, nb, newp != 0))
      ensures newp == 0 || p in old(direct) ==> log == old(log) + tried
    {
      hide HeapOk;
      hide SegsOk;
      hide DirectOk;
      hide Bins.Valid;
      hide IsBinned;
      hide IsVictim;
      hide Blocks;
      ghost var blocks, direct0, asked0 := Blocks(cells), direct, asked;
      ChunkBounds(p);
      if p in direct {
        newp, tried := DirectResize(p, nb, req);
        if newp != 0 {
          DirectChanged(p, req, blocks, direct0, asked0);
        }
        return;
      }
      UsedTags(cells, ranges, head, foot, p);
      tried := [];
      var oldsize := head[p].size;
      var next := p + oldsize;
      if oldsize >= nb {
        ghost var shrink, calls := ShrinkInPlace(p, nb, req);
        ChunkChanged(p, req, if oldsize - nb < MIN_CHUNK_SIZE then oldsize else nb, blocks);
        newp := p;
      } else if next == top && oldsize + topsize > nb {
        GrowIntoTop(p, nb, req);
        ChunkChanged(p, req, nb, blocks);
        newp := p;
      } else {
        newp := 0;
      }
    }

    // The block can stay where it is: a chunk that is large enough, or can be together with the top; a
    // direct chunk that is kept, or that the system resizes.
    ghost predicate Resizable(p: Addr, nb: nat, tried: seq<Call>)
      reads this
    {
      if p in direct then !IsSmall(nb) && tried == DirectTried(p, nb, true)
      else p in cells && (cells[p].size >= nb || (After(cells, p) == top && cells[p].size + topsize > nb))
    }

    lemma ChunkChanged(p: Addr, req: nat, size: nat, blocks: map<Addr, Block>)
      requires Valid() && p !in direct && p > 0 && size >= req + CHUNK_OVERHEAD
      requires Blocks(cells) == blocks[p := Block(req, size)]
      ensures Resized(p, p, req, LiveOf(blocks, direct, asked))
    {
      hide HeapOk;
      hide SegsOk;
      hide DirectOk;
      hide Kept;
      hide Bins.Valid;
      hide Blocks;
      LiveOfMore(blocks, direct, asked, p, Block(req, size));
    }

    lemma DirectChanged(p: Addr, req: nat, blocks: map<Addr, Block>, direct0: map<Addr, Mapped>, asked0: map<Addr, nat>)
      requires Valid() && p in direct0 && p in asked0 && p in direct && blocks == Blocks(cells)
      requires direct == direct0[p := direct[p]] && asked == asked0[p := req]
      ensures Resized(p, p, req, LiveOf(blocks, direct0, asked0))
    {
      hide HeapOk, SegsOk, Bins.Valid, Blocks, Kept, LiveOf;
      GainedRoom(p, req);
      LiveOfDirect(blocks, direct0, asked0, p, direct[p], req);
    }

    // malloc, copy, free.
    method MoveBlock(p: Addr, nsize: nat) returns (newmem: Addr, ghost answers: seq<Call>)
      requires Valid() && nsize < MAX_REQUEST && p in Live()
      modifies this`head, this`foot, this`cells, this`ranges, this`ids, this`segs, this`dv, this`dvsize,
               this`releaseChecks,
               this`top, this`topsize, this`trimCheck, this`direct, this`asked, this`bytes, this`log, bins
      ensures Valid() && (newmem == 0 ==> Live() == old(Live()) && bytes == old(bytes))
      ensures newmem == 0 ==> Now() == old(Now()) && segs == old(segs)
      ensures newmem != 0 ==> Resized(p, newmem - MEM_OFFSET, nsize, old(Live())) && newmem != p + MEM_OFFSET
      ensures newmem == 0 ==> log == old(log) + answers
      ensures newmem == 0 ==> AllRefused(Request2Size(nsize), answers, old(Now()))
      ensures newmem != 0 ==>
        var n := Min(nsize, Usable(old(Live())[p])); Data(bytes, newmem, n) == Data(old(bytes), p + MEM_OFFSET, n)
      ensures newmem != 0 ==> SameData(old(bytes), bytes, newmem, newmem + nsize)
    {
      hide HeapOk, SegsOk, DirectOk, Bins.Valid, IsBinned, IsVictim, IsTop, Blocks, Data, Reclaimed;
      hide AllRefused, Live;
      ghost var live := Live();
      ChunkBounds(p);
      Oversize(p);
      var oldsize := if p in direct then direct[p].psize else head[p].size;
      var overhead := if p in direct then DIRECT_CHUNK_OVERHEAD else CHUNK_OVERHEAD;
      newmem, answers := MallocCopy(p, nsize, oldsize - overhead);
      if newmem != 0 {
        ghost var shrink, calls := Free(p + MEM_OFFSET);
      }
    }

    // Neither the stock nor the system has nb bytes.
    ghost predicate AllRefused(nb: nat, answers: seq<Call>, before: Stock) {
      !Enough(nb, before) && Answered(answers, nb, 0)
    }

    method MallocCopy(p: Addr, nsize: nat, oc: nat) returns (newmem: Addr, ghost answers: seq<Call>)
      requires Valid() && nsize < MAX_REQUEST && p in Live() && oc == Usable(Live()[p])
      modifies this`head, this`foot, this`cells, this`ranges, this`ids, this`segs, this`dv, this`dvsize,
               this`top, this`topsize, this`trimCheck, this`direct, this`asked, this`bytes, this`log, bins
      ensures log == old(log) + answers
      ensures Valid() && (newmem == 0 ==> Live() == old(Live()) && bytes == old(bytes))
      ensures newmem == 0 ==> Now() == old(Now()) && segs == old(segs)
      ensures newmem != 0 ==> newmem > MEM_OFFSET && Gained(newmem - MEM_OFFSET, nsize, old(Live()))
      ensures newmem == 0 ==> AllRefused(Request2Size(nsize), answers, old(Now()))
      ensures newmem != 0 ==> Data(bytes, newmem, Min(nsize, oc)) == Data(old(bytes), p + MEM_OFFSET, Min(nsize, oc))
      ensures newmem != 0 ==> SameData(old(bytes), bytes, newmem, newmem + nsize)
    {
      hide HeapOk;
      hide SegsOk;
      hide DirectOk;
      hide Bins.Valid;
      hide IsBinned;
      hide IsVictim;
      hide IsTop;
      hide Blocks;
      hide Data;
      ghost var live := Live();
      ChunkBounds(p);
      newmem, answers := Malloc(nsize);
      if newmem != 0 {
        LiveApart(p, newmem - MEM_OFFSET);
        CopyBytes(newmem, p + MEM_OFFSET, if oc < nsize then oc else nsize);
      }
    }

    lemma Oversize(p: Addr)
      requires Valid() && p in Live()
      ensures p !in direct ==> p in head && head[p].size == Live()[p].size
      ensures p in direct ==>
        direct[p].psize >= DIRECT_CHUNK_OVERHEAD &&
          direct[p].psize - DIRECT_CHUNK_OVERHEAD == Live()[p].size - CHUNK_OVERHEAD
    {
      ChunkBounds(p);
      if p !in direct {
        UsedTags(cells, ranges, head, foot, p);
      }
      hide HeapOk;
    }

    lemma GrantedNone(nsize: nat, answers: seq<Call>, before: Stock, segs0: seq<Segment>, direct0: map<Addr, Mapped>)
      requires Granted(0, nsize, answers, before, segs0, direct0) && nsize < MAX_REQUEST
      ensures AllRefused(Request2Size(nsize), answers, before)
    {
    }

    // lj_alloc_f: all of it behind one entry.
    method AllocF(mem: Addr, nsize: nat)
      returns (r: Addr, ghost shrink: seq<Call>, ghost calls: seq<Call>, ghost answers: seq<Call>)
      requires Valid() && nsize < TWO64 && (mem != 0 ==> mem - MEM_OFFSET in Live())
      modifies this`head, this`foot, this`cells, this`ranges, this`ids, this`segs, this`dv, this`dvsize,
               this`releaseChecks,
               this`top, this`topsize, this`trimCheck, this`direct, this`asked, this`bytes, this`log, bins
      ensures Valid()
      ensures nsize == 0 ==> r == 0 && bytes == old(bytes) && Live() == if mem == 0 then old(Live())
        else old(Live()) - {mem - MEM_OFFSET}
      ensures nsize == 0 ==> log == old(log) + shrink + calls
      ensures nsize == 0 && mem == 0 ==> Now() == old(Now()) && segs == old(segs) && direct == old(direct)
      ensures nsize == 0 && mem == 0 ==> log == old(log)
      ensures nsize == 0 && mem != 0 ==>
        Reclaimed(mem - MEM_OFFSET, old(cells), old(direct), old(Now()), old(segs), shrink, calls)
      ensures nsize > 0 && r == 0 ==> Live() == old(Live()) && bytes == old(bytes)
      ensures nsize > 0 && r == 0 ==> Now() == old(Now()) && segs == old(segs)
      ensures nsize > 0 && r == 0 ==> nsize >= MAX_REQUEST || AllRefused(Request2Size(nsize), answers, old(Now()))
      ensures nsize > 0 && mem != 0 && nsize < MAX_REQUEST ==>
        (r == mem <==> old(Resizable(mem - MEM_OFFSET, Request2Size(nsize), calls)))
      ensures nsize > 0 && mem == 0 ==> log == old(log) + answers
      ensures nsize > 0 && mem == 0 ==>
        Granted(if r == 0 then 0 else r - MEM_OFFSET, nsize, answers, old(Now()), old(segs), old(direct))
      ensures nsize > 0 && r != 0 && mem == 0 ==> Gained(r - MEM_OFFSET, nsize, old(Live())) && bytes == old(bytes)
      ensures nsize > 0 && r != 0 && mem != 0 ==>
        && Resized(mem - MEM_OFFSET, r - MEM_OFFSET, nsize, old(Live()))
        && var n := Min(nsize, Usable(old(Live())[mem - MEM_OFFSET]));
           Data(bytes, r, n) == Data(old(bytes), mem, n) && SameData(old(bytes), bytes, r, r + nsize)
    {
      hide HeapOk, SegsOk, DirectOk, Kept, Bins.Valid, Live, Granted, AllRefused, Gained, Resized, Reclaimed;
      r, shrink, calls, answers := 0, [], [], [];
      if nsize == 0 {
        shrink, calls := Free(mem);
      } else if mem == 0 {
        r, answers := Malloc(nsize);
        if r == 0 && nsize < MAX_REQUEST {
          GrantedNone(nsize, answers, old(Now()), old(segs), old(direct));
        }
      } else {
        r, calls, answers := Realloc(mem, nsize);
      }
    }
  }
}
