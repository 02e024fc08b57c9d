/** The memory the allocator got from the operating system: its segments, and chunks with a mapping of their own. */
module AllocMapping {
  import opened AllocHeap
  import opened AllocLinks

  const DEFAULT_GRANULARITY := 0x2_0000

  // A mapped segment, and where its record is kept.
  datatype Segment = Segment(base: Addr, size: nat, at: Addr)

  // A chunk with a mapping of its own: the tags in its head and foot.
  datatype Mapped = Mapped(offset: nat, psize: nat)

  const DIRECT_FOOT_PAD := 32
  const DIRECT_CHUNK_OVERHEAD := 16

  function MappedEnd(p: Addr, d: Mapped): Addr {
    p + d.psize + DIRECT_FOOT_PAD
  }

  function SegEnd(g: Segment): Addr {
    g.base + g.size
  }

  predicate Granular(size: nat) {
    size > 0 && size % DEFAULT_GRANULARITY == 0
  }

  lemma GranularSize(size: nat)
    requires Granular(size)
    ensures size % 8 == 0 && size >= DEFAULT_GRANULARITY
  {
  }

  predicate Disjoint(lo: Addr, hi: Addr, lo': Addr, hi': Addr) {
    hi <= lo' || hi' <= lo
  }

  // The segment list tells the mapped regions.
  ghost predicate SegsOk(segs: seq<Segment>, ids: seq<nat>, ranges: Ranges) {
    SegsNamed(segs, ids, ranges) && SegsApart(segs)
  }

  ghost predicate SegsNamed(segs: seq<Segment>, ids: seq<nat>, ranges: Ranges) {
    && |segs| == |ids| > 0
    && (forall i, j :: 0 <= i < j < |ids| ==> ids[i] != ids[j])
    && (forall i :: 0 <= i < |segs| ==> ids[i] in ranges && ranges[ids[i]] == Range(segs[i].base, SegEnd(segs[i])))
    && (forall s :: s in ranges ==> s in ids)
  }

  ghost predicate SegsApart(segs: seq<Segment>) {
    && (forall i :: 0 <= i < |segs| ==> Granular(segs[i].size))
    && (forall i, j :: 0 <= i < j < |segs| ==> Disjoint(segs[i].base, SegEnd(segs[i]), segs[j].base, SegEnd(segs[j])))
  }

  // Chunks with a mapping of their own lie apart from the segments and from each other.
  ghost predicate DirectOk(direct: map<Addr, Mapped>, asked: map<Addr, nat>, ranges: Ranges) {
    && DirectApart(direct, asked)
    && (forall p, s :: p in direct && s in ranges ==> Disjoint(p, MappedEnd(p, direct[p]), ranges[s].lo, ranges[s].hi))
  }

  ghost predicate DirectApart(direct: map<Addr, Mapped>, asked: map<Addr, nat>) {
    && asked.Keys == direct.Keys
    && (forall p :: p in direct ==>
          var d := direct[p];
          && p > 0 && p % 8 == 0 && d.offset == 0 && asked[p] + DIRECT_CHUNK_OVERHEAD <= d.psize &&
            MappedEnd(p, d) <= LIMIT)
    && (forall p, q :: p in direct && q in direct && p != q ==>
          Disjoint(p, MappedEnd(p, direct[p]), q, MappedEnd(q, direct[q])))
  }

  // A region that is not mapped yet.
  predicate Unmapped(base: Addr, size: nat, segs: seq<Segment>, direct: map<Addr, Mapped>) {
    && base > 0 && base % 8 == 0 && base + size <= LIMIT
    && (forall i :: 0 <= i < |segs| ==> Disjoint(base, base + size, segs[i].base, SegEnd(segs[i])))
    && (forall p :: p in direct ==> Disjoint(base, base + size, p, MappedEnd(p, direct[p])))
  }

  // --------------------------------------------------------------- a segment changes its size

  lemma ResizedSegs(segs: seq<Segment>, ids: seq<nat>, ranges: Ranges, i: nat, g: Segment, segs': seq<Segment>,
                    ranges': Ranges)
    requires SegsOk(segs, ids, ranges) && i < |segs| && segs' == segs[i := g]
    requires Granular(g.size)
    requires ranges' == ranges[ids[i] := Range(g.base, SegEnd(g))]
    requires forall j :: 0 <= j < |segs| && j != i ==> Disjoint(g.base, SegEnd(g), segs[j].base, SegEnd(segs[j]))
    ensures SegsOk(segs', ids, ranges')
  {
    forall j, k | 0 <= j < k < |segs'|
      ensures Disjoint(segs'[j].base, SegEnd(segs'[j]), segs'[k].base, SegEnd(segs'[k]))
    {
      assert Disjoint(segs[j].base, SegEnd(segs[j]), segs[k].base, SegEnd(segs[k]));
    }
  }

  lemma ResizedDirect(direct: map<Addr, Mapped>, asked: map<Addr, nat>, ranges: Ranges, s: nat, r: Range)
    requires DirectOk(direct, asked, ranges) && forall p :: p in direct ==>
      Disjoint(r.lo, r.hi, p, MappedEnd(p, direct[p]))
    ensures DirectOk(direct, asked, ranges[s := r])
  {
    hide DirectApart;
    var ranges' := ranges[s := r];
    forall p, t | p in direct && t in ranges'
      ensures Disjoint(p, MappedEnd(p, direct[p]), ranges'[t].lo, ranges'[t].hi)
    {
      if t != s {
        assert Disjoint(p, MappedEnd(p, direct[p]), ranges[t].lo, ranges[t].hi);
      } else {
        assert Disjoint(r.lo, r.hi, p, MappedEnd(p, direct[p]));
      }
    }
  }

  // A segment and the free region beside it are together as far from the others as they were.
  lemma GrownApart(segs: seq<Segment>, direct: map<Addr, Mapped>, ids: seq<nat>, ranges: Ranges, asked: map<Addr, nat>,
                   i: nat, base: Addr, size: nat, g: Segment)
    requires SegsOk(segs, ids, ranges) && DirectOk(direct, asked, ranges) && i < |segs| &&
      Unmapped(base, size, segs, direct)
    requires if base == SegEnd(segs[i]) then g.base == segs[i].base && SegEnd(g) == base + size
             else base + size == segs[i].base && g.base == base && SegEnd(g) == SegEnd(segs[i])
    ensures forall j :: 0 <= j < |segs| && j != i ==> Disjoint(g.base, SegEnd(g), segs[j].base, SegEnd(segs[j]))
    ensures forall p :: p in direct ==> Disjoint(g.base, SegEnd(g), p, MappedEnd(p, direct[p]))
  {
    forall j | 0 <= j < |segs| && j != i ensures Disjoint(g.base, SegEnd(g), segs[j].base, SegEnd(segs[j])) {
      assert Disjoint(base, base + size, segs[j].base, SegEnd(segs[j]));
      var lo, hi := if i < j then i else j, if i < j then j else i;
      assert Disjoint(segs[lo].base, SegEnd(segs[lo]), segs[hi].base, SegEnd(segs[hi]));
    }
    forall p | p in direct ensures Disjoint(g.base, SegEnd(g), p, MappedEnd(p, direct[p])) {
      assert Disjoint(base, base + size, p, MappedEnd(p, direct[p]));
      assert Disjoint(p, MappedEnd(p, direct[p]), ranges[ids[i]].lo, ranges[ids[i]].hi);
    }
  }

  // ------------------------------------------------------------------- a new segment

  ghost function FreshId(known: seq<nat>): (s: nat)
    ensures s !in known && forall i :: 0 <= i < |known| ==> known[i] < s
  {
    if known == [] then 0
    else
      var rest := FreshId(known[1..]);
      if rest > known[0] then rest else known[0] + 1
  }

  // `segs` with a new segment in front; where the records are kept does not matter.
  ghost predicate Pushed(segs: seq<Segment>, segs': seq<Segment>, base: Addr, size: nat) {
    && |segs'| == |segs| + 1 && segs'[0].base == base && segs'[0].size == size
    && forall i :: 0 < i < |segs'| ==> segs'[i].base == segs[i - 1].base && segs'[i].size == segs[i - 1].size
  }

  lemma PushedOk(segs: seq<Segment>, segs': seq<Segment>, ids: seq<nat>, ranges: Ranges, s: nat, base: Addr, size: nat,
                 direct: map<Addr, Mapped>)
    requires SegsOk(segs, ids, ranges) && Unmapped(base, size, segs, direct) && Pushed(segs, segs', base, size)
    requires s !in ids && Granular(size)
    ensures s !in ranges && SegsOk(segs', [s] + ids, ranges[s := Range(base, base + size)])
  {
    PushedNamed(segs, segs', ids, ranges, s, base, size);
    PushedApart(segs, segs', base, size);
  }

  lemma PushedNamed(segs: seq<Segment>, segs': seq<Segment>, ids: seq<nat>, ranges: Ranges, s: nat, base: Addr,
                    size: nat)
    requires SegsNamed(segs, ids, ranges) && Pushed(segs, segs', base, size) && s !in ids
    ensures s !in ranges && SegsNamed(segs', [s] + ids, ranges[s := Range(base, base + size)])
  {
    var ids', ranges' := [s] + ids, ranges[s := Range(base, base + size)];
    forall t | t in ranges' ensures t in ids' {
      assert t in ranges ==> t in ids;
    }
    forall i | 0 <= i < |segs'|
      ensures ids'[i] in ranges' && ranges'[ids'[i]] == Range(segs'[i].base, SegEnd(segs'[i]))
    {
      if i > 0 {
        assert ids'[i] == ids[i - 1];
      }
    }
  }

  lemma PushedApart(segs: seq<Segment>, segs': seq<Segment>, base: Addr, size: nat)
    requires SegsApart(segs) && Pushed(segs, segs', base, size) && Granular(size)
    requires forall i :: 0 <= i < |segs| ==> Disjoint(base, base + size, segs[i].base, SegEnd(segs[i]))
    ensures SegsApart(segs')
  {
    forall i, j | 0 <= i < j < |segs'|
      ensures Disjoint(segs'[i].base, SegEnd(segs'[i]), segs'[j].base, SegEnd(segs'[j]))
    {
      if i == 0 {
        assert Disjoint(base, base + size, segs[j - 1].base, SegEnd(segs[j - 1]));
      } else {
        assert Disjoint(segs[i - 1].base, SegEnd(segs[i - 1]), segs[j - 1].base, SegEnd(segs[j - 1]));
      }
    }
  }

  // ------------------------------------------------------------- a segment is given back

  lemma RemovedOk(segs: seq<Segment>, ids: seq<nat>, ranges: Ranges, i: nat, segs': seq<Segment>, ids': seq<nat>)
    requires SegsOk(segs, ids, ranges) && 0 < i < |segs| == |ids|
    requires segs' == segs[..i] + segs[i + 1..] && ids' == ids[..i] + ids[i + 1..]
    ensures SegsOk(segs', ids', ranges - {ids[i]})
  {
    RemovedNamed(segs, ids, ranges, i, segs', ids');
    forall j, k | 0 <= j < k < |segs'|
      ensures Disjoint(segs'[j].base, SegEnd(segs'[j]), segs'[k].base, SegEnd(segs'[k]))
    {
      var j', k' := if j < i then j else j + 1, if k < i then k else k + 1;
      assert segs'[j] == segs[j'] && segs'[k] == segs[k'];
      assert Disjoint(segs[j'].base, SegEnd(segs[j']), segs[k'].base, SegEnd(segs[k']));
    }
    hide SegsNamed;
  }

  lemma RemovedNamed(segs: seq<Segment>, ids: seq<nat>, ranges: Ranges, i: nat, segs': seq<Segment>, ids': seq<nat>)
    requires SegsNamed(segs, ids, ranges) && 0 < i < |segs| == |ids|
    requires segs' == segs[..i] + segs[i + 1..] && ids' == ids[..i] + ids[i + 1..]
    ensures SegsNamed(segs', ids', ranges - {ids[i]})
  {
    forall j | 0 <= j < |segs'|
      ensures segs'[j] == segs[if j < i then j else j + 1] && ids'[j] == ids[if j < i then j else j + 1]
    {
    }
    forall t | t in ranges - {ids[i]} ensures t in ids' {
      var j :| 0 <= j < |ids| && ids[j] == t;
      assert ids'[if j < i then j else j - 1] == t;
    }
  }

  // ---------------------------------------------------------------------- direct chunks

  lemma DirectAdded(segs: seq<Segment>, ids: seq<nat>, ranges: Ranges, direct: map<Addr, Mapped>, asked: map<Addr, nat>,
                    mm: Addr, psize: nat, req: nat)
    requires SegsOk(segs, ids, ranges) && DirectOk(direct, asked, ranges)
    requires Unmapped(mm, psize + DIRECT_FOOT_PAD, segs, direct) && req + DIRECT_CHUNK_OVERHEAD <= psize
    ensures mm !in direct && DirectOk(direct[mm := Mapped(0, psize)], asked[mm := req], ranges)
  {
    var direct' := direct[mm := Mapped(0, psize)];
    assert mm in direct ==> Disjoint(mm, mm + psize + DIRECT_FOOT_PAD, mm, MappedEnd(mm, direct[mm]));
    forall p, s | p in direct' && s in ranges
      ensures Disjoint(p, MappedEnd(p, direct'[p]), ranges[s].lo, ranges[s].hi)
    {
      if p == mm {
        var i :| 0 <= i < |ids| && ids[i] == s;
        assert Disjoint(mm, mm + psize + DIRECT_FOOT_PAD, segs[i].base, SegEnd(segs[i]));
      } else {
        assert Disjoint(p, MappedEnd(p, direct[p]), ranges[s].lo, ranges[s].hi);
      }
    }
    forall p, q | p in direct' && q in direct' && p != q
      ensures Disjoint(p, MappedEnd(p, direct'[p]), q, MappedEnd(q, direct'[q]))
    {
      if p == mm {
        assert Disjoint(mm, mm + psize + DIRECT_FOOT_PAD, q, MappedEnd(q, direct[q]));
      } else if q == mm {
        assert Disjoint(mm, mm + psize + DIRECT_FOOT_PAD, p, MappedEnd(p, direct[p]));
      } else {
        assert Disjoint(p, MappedEnd(p, direct[p]), q, MappedEnd(q, direct[q]));
      }
    }
  }

  lemma DirectRemoved(direct: map<Addr, Mapped>, asked: map<Addr, nat>, ranges: Ranges, p: Addr)
    requires DirectOk(direct, asked, ranges)
    ensures DirectOk(direct - {p}, asked - {p}, ranges)
  {
  }

  // A direct chunk shrinks, or grows into free memory behind it.
  lemma DirectResized(segs: seq<Segment>, ids: seq<nat>, ranges: Ranges, direct: map<Addr, Mapped>,
                      asked: map<Addr, nat>, p: Addr, psize: nat, req: nat)
    requires SegsOk(segs, ids, ranges) && DirectOk(direct, asked, ranges) && p in direct
    requires req + DIRECT_CHUNK_OVERHEAD <= psize
    requires psize > direct[p].psize ==> Unmapped(MappedEnd(p, direct[p]), psize - direct[p].psize, segs, direct)
    ensures DirectOk(direct[p := Mapped(0, psize)], asked[p := req], ranges)
  {
    var direct', end, more := direct[p := Mapped(0, psize)], MappedEnd(p, direct[p]), psize - direct[p].psize;
    forall q, s | q in direct' && s in ranges
      ensures Disjoint(q, MappedEnd(q, direct'[q]), ranges[s].lo, ranges[s].hi)
    {
      assert Disjoint(q, MappedEnd(q, direct[q]), ranges[s].lo, ranges[s].hi);
      if q == p && psize > direct[p].psize {
        var i :| 0 <= i < |ids| && ids[i] == s;
        assert Disjoint(end, end + more, segs[i].base, SegEnd(segs[i]));
      }
    }
    forall a, b | a in direct' && b in direct' && a != b
      ensures Disjoint(a, MappedEnd(a, direct'[a]), b, MappedEnd(b, direct'[b]))
    {
      assert Disjoint(a, MappedEnd(a, direct[a]), b, MappedEnd(b, direct[b]));
      if psize > direct[p].psize {
        assert Disjoint(end, end + more, a, MappedEnd(a, direct[a]));
        assert Disjoint(end, end + more, b, MappedEnd(b, direct[b]));
      }
    }
  }
}
