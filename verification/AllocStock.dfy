/** Which free memory a request is served from, and what is left of it. */
module AllocStock {
  import opened AllocBins
  import opened AllocFree
  import opened AllocHeap
  import opened AllocLinks
  import opened AllocMapping
  import opened AllocMaps
  import opened AllocSearch
  import opened AllocSizes

  const DEFAULT_TRIM_THRESHOLD := 0x20_0000
  const MAX_RELEASE_CHECK_RATE := 255

  // What the allocator can hand out without asking the system: the chunks in bins with their sizes, the
  // designated victim, and the top. The top is trimmed when it is larger than `trimAt`, and unused segments
  // are released when `checks` has counted down.
  datatype Stock =
    Stock(sizes: map<Addr, nat>, dv: Addr, dvsize: nat, top: Addr, topsize: nat, trimAt: nat, checks: nat)

  // Some binned chunk is large enough.
  ghost predicate HasFit(t: Stock, nb: nat) {
    exists x :: x in t.sizes && t.sizes[x] >= nb
  }

  // Some small bin holds chunks of this size, or of the next one.
  ghost predicate ExactFit(t: Stock, nb: nat) {
    exists x :: x in t.sizes && IsSmall(t.sizes[x]) && (t.sizes[x] == nb || t.sizes[x] == nb + 8)
  }

  // A binned chunk that is large enough, and better than the victim.
  ghost predicate BetterFit(t: Stock, nb: nat) {
    exists x :: x in t.sizes && t.sizes[x] >= nb && (t.dvsize >= nb ==> t.sizes[x] < t.dvsize)
  }

  // A smallest binned chunk that is large enough was taken.
  ghost predicate BinUsed(p: Addr, nb: nat, t: Stock, t': Stock) {
    && p in t.sizes && t.sizes[p] >= nb && (forall x :: x in t.sizes && t.sizes[x] >= nb ==> t.sizes[p] <= t.sizes[x])
    && RestKept(p, nb, t, t')
  }

  // What is left of the chunk at p: where it is a chunk, it becomes the victim for a small request, and an
  // earlier victim goes to a bin; for a large request the rest goes to a bin.
  ghost predicate RestKept(p: Addr, nb: nat, t: Stock, t': Stock) {
    && p in t.sizes && t.sizes[p] >= nb
    && var rest, others := t.sizes[p] - nb, t.sizes - {p};
       t' ==
         if rest < MIN_CHUNK_SIZE then t.(sizes := others)
         else if nb < MIN_LARGE_SIZE then
           t.(sizes := if t.dv == 0 then others else others[t.dv := t.dvsize], dv := p + nb, dvsize := rest)
         else t.(sizes := others[p + nb := rest])
  }

  // The victim was split, or used up.
  ghost predicate VictimUsed(p: Addr, nb: nat, t: Stock, t': Stock) {
    && p == t.dv && nb <= t.dvsize
    && t' == if t.dvsize - nb >= MIN_CHUNK_SIZE
      then t.(dv := p + nb, dvsize := t.dvsize - nb) else t.(dv := 0, dvsize := 0)
  }

  ghost predicate TopUsed(p: Addr, nb: nat, t: Stock, t': Stock) {
    p == t.top && nb < t.topsize && t' == t.(top := p + nb, topsize := t.topsize - nb)
  }

  // The stock is enough for nb bytes.
  ghost predicate Enough(nb: nat, t: Stock) {
    HasFit(t, nb) || nb <= t.dvsize || nb < t.topsize
  }

  // The chunk comes from where it should: for a small request from a bin if the size is right, from the
  // victim, from any bin, or from the top; for a large one from a bin unless the victim is as good.
  ghost predicate Served(p: Addr, nb: nat, t: Stock, t': Stock) {
    if (if nb < MIN_LARGE_SIZE then ExactFit(t, nb) || (nb > t.dvsize && HasFit(t, nb)) else BetterFit(t, nb))
    then BinUsed(p, nb, t, t')
    else if nb <= t.dvsize then VictimUsed(p, nb, t, t')
    else TopUsed(p, nb, t, t')
  }

  // The stock once chunk p is free, and merged with the free memory on both sides: that is the top, or the
  // victim, if one of them was merged, and is in a bin otherwise.
  ghost function Consolidated(c: Cells, p: Addr, t: Stock): Stock
    requires CanFree(c, p)
  {
    var start, next, end := MergedStart(c, p), After(c, p), MergedEnd(c, p);
    var others := t.sizes - {start, next};
    if next == t.top then
      t.(sizes := others, dv := if start == t.dv then 0 else t.dv, dvsize := if start == t.dv then 0 else t.dvsize,
        top := start, topsize := t.topsize + (next - start))
    else if next == t.dv || start == t.dv then t.(sizes := others, dv := start, dvsize := end - start)
    else t.(sizes := others[start := end - start])
  }

  // Top and victim are in no bin.
  lemma Unbinned(c: Cells, t: Stock)
    requires IsBinned(c, t.sizes) && IsVictim(c, t.dv, t.dvsize) && IsTop(c, t.top, t.topsize)
    ensures t.sizes - {t.top} == t.sizes && (t.dv != 0 ==> t.sizes - {t.dv} == t.sizes)
  {
  }

  lemma IntoTop(c: Cells, p: Addr, t: Stock)
    requires CanFree(c, p) && After(c, p) == t.top && t.sizes - {t.top} == t.sizes
    ensures var start, dv := MergedStart(c, p), t.dv;
      && t.top > start
      && Consolidated(c, p, t) == t.(sizes := t.sizes - {start}, dv := if start == dv then 0 else dv,
           dvsize := if start == dv then 0 else t.dvsize, top := start, topsize := t.topsize + (t.top - start))
  {
    var start := MergedStart(c, p);
    assert t.sizes - {start, t.top} == t.sizes - {start};
  }

  lemma IntoVictim(c: Cells, p: Addr, t: Stock)
    requires CanFree(c, p) && IsVictim(c, t.dv, t.dvsize) && t.dv != 0 && t.sizes - {t.dv} == t.sizes
    requires After(c, p) == t.dv != t.top
    ensures var start := MergedStart(c, p);
      Consolidated(c, p, t) == t.(sizes := t.sizes - {start}, dv := start, dvsize := t.dvsize + (t.dv - start))
  {
    var start := MergedStart(c, p);
    assert t.sizes - {start, t.dv} == t.sizes - {start};
  }

  // ----------------------------------------------------------------- memory that is given back

  // By how much the top shrinks if it is to keep `pad` bytes and the system agrees: whole units, and what
  // stays is more than `pad`, by no more than a unit.
  function Surplus(topsize: nat, pad: nat): (extra: nat)
    ensures topsize > pad ==>
      extra % DEFAULT_GRANULARITY == 0 && pad < topsize - extra <= pad + DEFAULT_GRANULARITY
    ensures topsize <= pad ==> extra == 0
  {
    if topsize <= pad then 0
    else ((topsize - pad + (DEFAULT_GRANULARITY - 1)) / DEFAULT_GRANULARITY - 1) * DEFAULT_GRANULARITY
  }

  // The record of some segment lies in this one.
  predicate Linked(g: Segment, segs: seq<Segment>) {
    exists j :: 0 <= j < |segs| && g.base <= segs[j].at < SegEnd(g)
  }

  // The segment holds one chunk, and that is not in use.
  predicate Vacant(g: Segment, head: map<Addr, Head>) {
    g.base in head && !head[g.base].cinuse && g.base + head[g.base].size >= SegEnd(g) - TOP_FOOT_SIZE
  }

  // The calls to the system, with its answers.
  datatype Call =
    | Mmap(size: nat, ok: bool, base: Addr)
    | Munmap(base: Addr, size: nat, ok: bool)
    | Mremap(base: Addr, size: nat, newsize: nat, ok: bool)

  // Behind the current segment, those that are unused are gone, unless the system refused.
  predicate NoneVacant(segs: seq<Segment>, head: map<Addr, Head>, calls: seq<Call>) {
    forall i :: 0 < i < |segs| && Vacant(segs[i], head) ==> Munmap(segs[i].base, segs[i].size, false) in calls
  }

  // Segment x was among them, and is not any more.
  predicate Gone(x: Addr, segs: seq<Segment>, segs': seq<Segment>) {
    (exists g :: g in segs && g.base == x) && !exists g :: g in segs' && g.base == x
  }

  // Unused segments were unmapped, by these calls and no others; nothing else has changed, but that the
  // victim is in a bin if its segment could not be unmapped.
  ghost predicate Released(t: Stock, segs: seq<Segment>, calls: seq<Call>, t': Stock, segs': seq<Segment>,
                           head: map<Addr, Head>)
  {
    && t'.top == t.top && t'.topsize == t.topsize && t'.trimAt == t.trimAt && t'.checks == t.checks
    && segs' != [] && segs != [] && segs'[0] == segs[0]
    && (forall g :: g in segs' ==> g in segs)
    && (forall g :: g in segs ==> g in segs' || (Vacant(g, head) && Munmap(g.base, g.size, true) in calls))
    && (forall c :: c in calls ==> Unmaps(c, segs, head) && (c.ok ==> forall g :: g in segs' ==> g.base != c.base))
    && (forall x :: x in t.sizes ==> (x in t'.sizes && t'.sizes[x] == t.sizes[x]) || Gone(x, segs, segs'))
    && (forall x :: x in t'.sizes ==>
          (x in t.sizes && t'.sizes[x] == t.sizes[x]) || (x == t.dv != t'.dv && t'.sizes[x] == t.dvsize))
    && ((t'.dv == t.dv && t'.dvsize == t.dvsize) ||
        (t'.dv == 0 && t'.dvsize == 0 && (t.dv in t'.sizes || Gone(t.dv, segs, segs'))))
  }

  // The call is for one of these segments, which is unused.
  predicate Unmaps(c: Call, segs: seq<Segment>, head: map<Addr, Head>) {
    exists g :: g in segs && Vacant(g, head) && c == Munmap(g.base, g.size, c.ok)
  }

  lemma ReleasedNothing(t: Stock, segs: seq<Segment>, head: map<Addr, Head>)
    requires segs != []
    ensures Released(t, segs, [], t, segs, head)
  {
  }

  lemma ReleasedAlso(t: Stock, segs: seq<Segment>, calls: seq<Call>, t1: Stock, segs1: seq<Segment>, c: Call,
                     t2: Stock, segs2: seq<Segment>, head: map<Addr, Head>)
    requires Released(t, segs, calls, t1, segs1, head) && Released(t1, segs1, [c], t2, segs2, head)
    ensures Released(t, segs, calls + [c], t2, segs2, head)
  {
    assert c in [c];
    assert forall d :: d in calls + [c] <==> d in calls || d == c;
    forall x | Gone(x, segs, segs1) ensures Gone(x, segs, segs2) {
    }
    forall x | Gone(x, segs1, segs2) ensures Gone(x, segs, segs2) {
      var g :| g in segs1 && g.base == x;
      assert g in segs;
    }
  }

  // One vacant segment is unmapped, or stays.
  lemma ReleasedOne(t: Stock, segs: seq<Segment>, head: map<Addr, Head>, i: nat, size: nat, gone: bool)
    requires 0 < i < |segs| && Vacant(segs[i], head)
    requires forall j :: 0 <= j < |segs| && j != i ==> segs[j].base != segs[i].base
    requires var p := segs[i].base;
      p != 0 && if p == t.dv then p !in t.sizes && t.dvsize == size else p in t.sizes && t.sizes[p] == size
    ensures var p := segs[i].base;
      var left := if p == t.dv then t.(sizes := t.sizes - {p}, dv := 0, dvsize := 0) else t.(sizes := t.sizes - {p});
      if gone then Released(t, segs, [Munmap(p, segs[i].size, true)], left, segs[..i] + segs[i + 1..], head)
      else Released(t, segs, [Munmap(p, segs[i].size, false)], left.(sizes := left.sizes[p := size]), segs, head)
  {
    var p, segs' := segs[i].base, segs[..i] + segs[i + 1..];
    assert segs[i] in segs;
    forall g | g in segs ensures g in segs' || g == segs[i] {
      var j :| 0 <= j < |segs| && segs[j] == g;
      assert j < i ==> segs'[j] == g;
      assert j > i ==> segs'[j - 1] == g;
    }
    forall g | g in segs' ensures g in segs && g.base != p {
      var j :| 0 <= j < |segs'| && segs'[j] == g;
      assert g == if j < i then segs[j] else segs[j + 1];
    }
    assert Gone(p, segs, segs');
  }

  // The calls that give back `extra` bytes at the end of a segment: it is resized, or else its end is unmapped.
  predicate EndGiven(shrink: seq<Call>, g: Segment, extra: nat)
    requires extra <= g.size
  {
    && shrink != [] && shrink[0] == Mremap(g.base, g.size, g.size - extra, shrink[0].ok)
    && if shrink[0].ok then |shrink| == 1
       else |shrink| == 2 && shrink[1] == Munmap(g.base + (g.size - extra), extra, shrink[1].ok)
  }

  // The calls that make the top smaller, and by how much they do.
  predicate TopGiven(shrink: seq<Call>, topsize: nat, pad: nat, segs: seq<Segment>)
    requires segs != []
  {
    var extra := Surplus(topsize, pad);
    if topsize <= pad || segs[0].size < extra || Linked(segs[0], segs) then shrink == []
    else EndGiven(shrink, segs[0], extra)
  }

  function GivenBack(shrink: seq<Call>, topsize: nat, pad: nat): nat {
    if shrink != [] && shrink[|shrink| - 1].ok then Surplus(topsize, pad) else 0
  }

  // The end of the top is given back, unless the system keeps it; and unused segments. If there was
  // nothing to give back, the top is not trimmed again before it has another region.
  ghost predicate Trimmed(pad: nat, shrink: seq<Call>, calls: seq<Call>, t: Stock, segs: seq<Segment>, t': Stock,
                          segs': seq<Segment>, head: map<Addr, Head>)
  {
    && segs != [] && TopGiven(shrink, t.topsize, pad, segs)
    && var less := GivenBack(shrink, t.topsize, pad);
       && less <= t.topsize && less <= segs[0].size && NoneVacant(segs', head, calls)
       && t'.trimAt == (if less > 0 then DEFAULT_TRIM_THRESHOLD
            else if |segs'| == |segs| && t.topsize > t.trimAt then TWO64 - 1 else t.trimAt)
       && var left := t.(topsize := t.topsize - less, trimAt := t'.trimAt, checks := ReleaseRate(segs));
          Released(left, segs[0 := segs[0].(size := segs[0].size - less)], calls, t', segs', head)
  }

  function ReleaseRate(segs: seq<Segment>): nat {
    if |segs| - 1 > MAX_RELEASE_CHECK_RATE then |segs| - 1 else MAX_RELEASE_CHECK_RATE
  }

  // One more chunk was put into a tree bin; each time so many were, unused segments are released.
  ghost predicate Counted(t: Stock, segs: seq<Segment>, calls: seq<Call>, t': Stock, segs': seq<Segment>,
                          head: map<Addr, Head>)
  {
    if t.checks % TWO64 == 1 then
      NoneVacant(segs', head, calls) && Released(t.(checks := ReleaseRate(segs)), segs, calls, t', segs', head)
    else calls == [] && segs' == segs && t' == t.(checks := (t.checks + TWO64 - 1) % TWO64)
  }

  // t1 is the stock once the top is smaller, t2 that without unused segments.
  lemma TrimmedBoth(pad: nat, shrink: seq<Call>, calls: seq<Call>, t: Stock, segs: seq<Segment>, t1: Stock,
                    segs1: seq<Segment>, t2: Stock, segs': seq<Segment>, head: map<Addr, Head>, trimAt: nat)
    requires segs != [] && TopGiven(shrink, t.topsize, pad, segs) && NoneVacant(segs', head, calls)
    requires var less := GivenBack(shrink, t.topsize, pad);
      && less <= t.topsize && less <= segs[0].size && segs1 == segs[0 := segs[0].(size := segs[0].size - less)]
      && t1 == t.(topsize := t.topsize - less, trimAt := t1.trimAt)
      && t1.trimAt == (if less > 0 then DEFAULT_TRIM_THRESHOLD else t.trimAt)
      && trimAt == if less == 0 && |segs'| == |segs| && t.topsize > t.trimAt then TWO64 - 1 else t1.trimAt
    requires Released(t1.(checks := ReleaseRate(segs)), segs1, calls, t2, segs', head)
    ensures Trimmed(pad, shrink, calls, t, segs, t2.(trimAt := trimAt), segs', head)
  {
    hide NoneVacant, Released, TopGiven, GivenBack;
    var left := t1.(checks := ReleaseRate(segs));
    Recounted(left, segs1, calls, t2, segs', head, trimAt, left.checks);
  }

  lemma Recounted(t: Stock, segs: seq<Segment>, calls: seq<Call>, t': Stock, segs': seq<Segment>,
                  head: map<Addr, Head>, m: nat, n: nat)
    requires Released(t, segs, calls, t', segs', head)
    ensures Released(t.(trimAt := m, checks := n), segs, calls, t'.(trimAt := m, checks := n), segs', head)
    ensures t'.checks == t.checks
  {
  }

  // ------------------------------------------------------------ what the system is asked for

  const PAGE_SIZE := 4096
  const DEFAULT_MMAP_THRESHOLD := 0x2_0000

  // page_align: up to a multiple of the page size, modulo 2^64.
  function PageAlign(n: nat): nat {
    (n + PAGE_SIZE - 1) / PAGE_SIZE * PAGE_SIZE % TWO64
  }

  // granularity_align.
  function GranularityAlign(n: nat): nat {
    (n + DEFAULT_GRANULARITY - 1) / DEFAULT_GRANULARITY * DEFAULT_GRANULARITY % TWO64
  }

  // The size of the mapping for a direct chunk, and that of a new region.
  function MapSize(nb: nat): nat {
    PageAlign((nb + 55) % TWO64)
  }

  function SysSize(nb: nat): nat {
    GranularityAlign((nb + TOP_FOOT_SIZE + 1) % TWO64)
  }

  // The mappings asked for, one after the other, until one is granted. Sizes that wrapped around are not.
  function AsksFor(nb: nat): (sizes: seq<nat>)
    ensures |sizes| <= 2
  {
    (if nb >= DEFAULT_MMAP_THRESHOLD && MapSize(nb) > nb then [MapSize(nb)] else []) +
      (if SysSize(nb) > nb then [SysSize(nb)] else [])
  }

  // Just the last one is granted, if there is memory at p; else all are refused.
  ghost predicate Answered(answers: seq<Call>, nb: nat, p: Addr) {
    && |answers| <= |AsksFor(nb)| && (if p == 0 then |answers| == |AsksFor(nb)| else answers != [])
    && forall i :: 0 <= i < |answers| ==>
         answers[i] == Mmap(AsksFor(nb)[i], p != 0 && i == |answers| - 1, answers[i].base)
  }

  // The sizes asked for are the least multiples that hold the chunk and what goes with it; they wrap around
  // just for sizes next to 2^64.
  lemma AskSizes(nb: nat)
    requires nb < TWO64
    ensures MapSize(nb) > nb <==> nb + 55 <= TWO64 - 4096
    ensures MapSize(nb) > nb ==> MapSize(nb) % 4096 == 0 && nb + 55 <= MapSize(nb) < nb + 55 + 4096
    ensures SysSize(nb) > nb <==> nb + 65 <= TWO64 - 0x2_0000
    ensures SysSize(nb) > nb ==> SysSize(nb) % 0x2_0000 == 0 && nb + 65 <= SysSize(nb) < nb + 65 + 0x2_0000
  {
    hide PageAlign, GranularityAlign;
    PageAligned((nb + 55) % TWO64);
    GranularityAligned((nb + 65) % TWO64);
  }

  lemma PageAligned(n: nat)
    requires n < TWO64
    ensures if n <= TWO64 - 4096 then PageAlign(n) % 4096 == 0 && n <= PageAlign(n) < n + 4096 else PageAlign(n) == 0
  {
  }

  lemma GranularityAligned(n: nat)
    requires n < TWO64
    ensures var a := GranularityAlign(n);
      if n <= TWO64 - 0x2_0000 then a % 0x2_0000 == 0 && n <= a < n + 0x2_0000 else a == 0
  {
  }

  // A region that was granted: it extends the current segment and its top if it lies right behind, or the
  // segment that it lies right before; else it becomes the current segment.
  ghost predicate RegionJoined(p: Addr, a: Call, segs: seq<Segment>, top: Addr, segs': seq<Segment>) {
    |segs| > 0 &&
    if a.base == SegEnd(segs[0]) then p == top && segs' == segs[0 := segs[0].(size := segs[0].size + a.size)]
    else
      && p == a.base
      && if exists j :: 0 <= j < |segs| && segs[j].base == a.base + a.size then
           exists j :: 0 <= j < |segs| && segs[j].base == a.base + a.size &&
             segs' == segs[j := Segment(a.base, segs[j].size + a.size, segs[j].at)]
         else Pushed(segs, segs', a.base, a.size)
  }

  // The stock then, the chunk of nb bytes taken. Behind it the rest of a region that lies right before a
  // segment is merged with the first chunk of that; an old top goes to a bin if it is large enough.
  ghost function Supplied(t: Stock, nb: nat, a: Call, segs: seq<Segment>): (t': Stock)
    requires |segs| > 0 && nb <= a.size && nb + TOP_FOOT_SIZE <= a.size
  {
    var q, next := a.base + nb, a.base + a.size;
    if a.base == SegEnd(segs[0]) then
      t.(top := t.top + nb, topsize := t.topsize + (a.size - nb), trimAt := DEFAULT_TRIM_THRESHOLD)
    else if exists j :: 0 <= j < |segs| && segs[j].base == next then Before(t, q, a.size - nb, next)
    else
      t.(sizes := if t.topsize >= MIN_CHUNK_SIZE then t.sizes[t.top := t.topsize] else t.sizes,
        top := q, topsize := a.size - TOP_FOOT_SIZE - nb, trimAt := DEFAULT_TRIM_THRESHOLD)
  }

  // The free memory at q is merged with the chunk behind it.
  ghost function Before(t: Stock, q: Addr, qsize: nat, next: Addr): (t': Stock) {
    if next == t.top then t.(top := q, topsize := t.topsize + qsize)
    else if next == t.dv then t.(dv := q, dvsize := t.dvsize + qsize)
    else if next in t.sizes then t.(sizes := (t.sizes - {next})[q := qsize + t.sizes[next]])
    else t.(sizes := t.sizes[q := qsize])
  }

  lemma JoinedBehind(a: Call, segs: seq<Segment>, t: Stock, nb: nat)
    requires |segs| > 0 && a.base == SegEnd(segs[0]) && nb + TOP_FOOT_SIZE <= a.size
    ensures RegionJoined(t.top, a, segs, t.top, segs[0 := segs[0].(size := segs[0].size + a.size)])
    ensures Supplied(t, nb, a, segs) ==
      t.(top := t.top + nb, topsize := t.topsize + a.size - nb, trimAt := DEFAULT_TRIM_THRESHOLD)
  {
  }

  lemma JoinedBefore(a: Call, segs: seq<Segment>, t: Stock, nb: nat, j: nat)
    requires j < |segs| && a.base != SegEnd(segs[0]) && segs[j].base == a.base + a.size && nb + TOP_FOOT_SIZE <= a.size
    ensures RegionJoined(a.base, a, segs, t.top, segs[j := Segment(a.base, segs[j].size + a.size, segs[j].at)])
    ensures Supplied(t, nb, a, segs) == Before(t, a.base + nb, a.size - nb, a.base + a.size)
  {
  }

  lemma JoinedNew(a: Call, segs: seq<Segment>, t: Stock, nb: nat, segs': seq<Segment>)
    requires |segs| > 0 && a.base != SegEnd(segs[0]) && nb + TOP_FOOT_SIZE <= a.size
    requires forall j :: 0 <= j < |segs| ==> segs[j].base != a.base + a.size
    requires Pushed(segs, segs', a.base, a.size)
    ensures RegionJoined(a.base, a, segs, t.top, segs')
    ensures Supplied(t, nb, a, segs) ==
      t.(sizes := if t.topsize >= MIN_CHUNK_SIZE then t.sizes[t.top := t.topsize] else t.sizes,
        top := a.base + nb, topsize := a.size - TOP_FOOT_SIZE - nb, trimAt := DEFAULT_TRIM_THRESHOLD)
  {
  }

  // ------------------------------------------------------------------ what the maps say

  // A small bin is marked exactly if there is a chunk of its size.
  lemma MarkedExactly(b: Bins, i: nat)
    requires b.Valid() && i < NSMALLBINS
    ensures IsMarked(b.smallmap, i) <==> exists x :: x in b.sizes && b.sizes[x] == 8 * i
  {
    hide IsMarked;
    SmallHeld(b.mem, b.small, b.tree, b.sizes, i);
    if b.small[i] != [] {
      var x := b.small[i][0];
      assert x in b.small[i] && x in b.sizes && b.sizes[x] == 8 * i;
    }
    forall x | x in b.sizes && b.sizes[x] == 8 * i ensures b.small[i] != [] {
      InItsBin(b.mem, b.small, b.tree, b.sizes, x);
    }
  }

  // A size in a small bin, and a size in a tree bin.
  lemma BinnedSize(b: Bins, x: Addr)
    requires b.Valid() && x in b.sizes
    ensures x > 0 && b.sizes[x] % 8 == 0 && b.sizes[x] == 8 * (b.sizes[x] / 8)
    ensures !IsSmall(b.sizes[x]) ==> b.sizes[x] >= MIN_LARGE_SIZE && b.treemap != 0
  {
    InItsBin(b.mem, b.small, b.tree, b.sizes, x);
    if !IsSmall(b.sizes[x]) {
      BinFacts(b, TreeIndex(b.sizes[x]));
      ZeroExactly(b.treemap);
    }
  }

  // The first of the two bins for nb that is marked, or the first one behind them.
  lemma LeastMarked(b: Bins, nb: nat, i: nat)
    requires b.Valid() && nb % 8 == 0 && i >= nb / 8 && IsMarked(b.smallmap, i)
    requires forall j: nat :: IsMarked(b.smallmap, j) && j >= nb / 8 ==> i <= j
    ensures i < NSMALLBINS && (exists x :: x in b.sizes && b.sizes[x] == 8 * i)
    ensures forall x :: x in b.sizes && b.sizes[x] >= nb ==> 8 * i <= b.sizes[x]
  {
    hide IsMarked;
    assert i < NSMALLBINS;
    MarkedExactly(b, i);
    forall x | x in b.sizes && b.sizes[x] >= nb ensures 8 * i <= b.sizes[x] {
      BinnedSize(b, x);
      if IsSmall(b.sizes[x]) {
        MarkedExactly(b, b.sizes[x] / 8);
      }
    }
  }

  lemma ExactMarked(b: Bins, nb: nat, t: Stock)
    requires b.Valid() && nb % 8 == 0 && nb < MIN_LARGE_SIZE && t.sizes == b.sizes
    ensures ExactFit(t, nb) <==> IsMarked(b.smallmap, nb / 8) || IsMarked(b.smallmap, nb / 8 + 1)
  {
    hide IsMarked;
    MarkedExactly(b, nb / 8);
    if nb / 8 + 1 < NSMALLBINS {
      MarkedExactly(b, nb / 8 + 1);
    }
  }

  // No small bin is marked that is large enough.
  lemma NoneMarked(b: Bins, nb: nat)
    requires b.Valid() && nb % 8 == 0 && nb < MIN_LARGE_SIZE && forall j: nat :: IsMarked(b.smallmap, j) ==> j < nb / 8
    ensures forall x :: x in b.sizes ==> (b.sizes[x] >= nb <==> !IsSmall(b.sizes[x]))
    ensures b.treemap != 0 <==> exists x :: x in b.sizes && b.sizes[x] >= nb
  {
    hide IsMarked;
    forall x | x in b.sizes ensures b.sizes[x] >= nb <==> !IsSmall(b.sizes[x]) {
      BinnedSize(b, x);
      if IsSmall(b.sizes[x]) {
        MarkedExactly(b, b.sizes[x] / 8);
      }
    }
    forall x | x in b.sizes && b.sizes[x] >= nb ensures b.treemap != 0 {
      BinnedSize(b, x);
    }
    if b.treemap != 0 {
      ZeroExactly(b.treemap);
      var i: nat :| IsMarked(b.treemap, i);
      MarkedTree(b, i);
      BinFacts(b, i);
      LeastIn(b.tree[i]);
      var y := SizeHasMember(b.tree[i], b.sizes, Least(b.tree[i]));
    }
  }
}
