/** The bins of free chunks: circular lists for the small sizes, tries for the large ones. */
module AllocBins {
  import opened AllocLinks
  import opened AllocMaps
  import opened AllocSizes
  import opened AllocTrie
  import opened AllocTrieLinks
  import opened Powers

  // The head of a small bin.
  function SmallBinAt(i: nat): Addr {
    -1 - i
  }

  // The list of a small bin. While it is empty, the links of the head do not matter.
  ghost predicate SmallOk(m: Memory, list: seq<Addr>, i: nat, sizes: map<Addr, nat>) {
    list != [] ==>
      && RingOk(m, [SmallBinAt(i)] + list) && Distinct([SmallBinAt(i)] + list)
      && forall x :: x in list ==> x > 0 && x in sizes && sizes[x] == 8 * i
  }

  ghost predicate TreeOk(m: Memory, t: Trie, i: nat, sizes: map<Addr, nat>) {
    && Proper(t) && Sized(t, sizes) && InRange(t, BinLo(i), BinBits(i)) && Wired(m, t, Slot(i), i)
    && forall x :: x in Members(t) ==> x in sizes && !IsSmall(sizes[x]) && TreeIndex(sizes[x]) == i
  }

  // A size that a free chunk may have.
  predicate ChunkSize(s: nat) {
    s % 8 == 0 && MIN_CHUNK_SIZE <= s < 0x100_0000_0000
  }

  // Every binned chunk is in the bin of its size.
  ghost predicate Covered(small: seq<seq<Addr>>, tree: seq<Trie>, sizes: map<Addr, nat>)
    requires |small| == NSMALLBINS && |tree| == NTREEBINS
  {
    forall x :: x in sizes ==>
      && x > 0 && ChunkSize(sizes[x])
      && if IsSmall(sizes[x]) then x in small[sizes[x] / 8] else x in Members(tree[TreeIndex(sizes[x])])
  }

  // The bin of a size, over both kinds.
  function BinOf(s: nat): nat {
    if IsSmall(s) then s / 8 else NSMALLBINS + TreeIndex(s)
  }

  // Changes to chunks of one bin do not disturb another one.
  lemma SmallKept(m: Memory, m': Memory, xs: set<Addr>, list: seq<Addr>, i: nat,
                  sizes: map<Addr, nat>, sizes': map<Addr, nat>)
    requires SmallOk(m, list, i, sizes) && SameBut(m, m', xs) && i < NSMALLBINS && SmallBinAt(i) !in xs
    requires forall x :: x in xs && x in sizes ==> BinOf(sizes[x]) != i
    requires forall x :: x in sizes && BinOf(sizes[x]) == i ==> x in sizes' && sizes'[x] == sizes[x]
    ensures SmallOk(m', list, i, sizes')
  {
    if list != [] {
      assert IsSmall(8 * i) && BinOf(8 * i) == i;
      RingKept(m, m', [SmallBinAt(i)] + list);
    }
  }

  lemma TreeKept(m: Memory, m': Memory, xs: set<Addr>, t: Trie, i: nat,
                 sizes: map<Addr, nat>, sizes': map<Addr, nat>)
    requires TreeOk(m, t, i, sizes) && SameBut(m, m', xs)
    requires forall x :: x in xs && x in sizes ==> BinOf(sizes[x]) != NSMALLBINS + i
    requires forall x :: x in sizes && BinOf(sizes[x]) == NSMALLBINS + i ==> x in sizes' && sizes'[x] == sizes[x]
    ensures TreeOk(m', t, i, sizes')
  {
    WiredKept(m, m', t, Slot(i), i);
    SizedKept(t, sizes, sizes');
  }

  ghost predicate BinOk(m: Memory, small: seq<seq<Addr>>, tree: seq<Trie>, sizes: map<Addr, nat>, b: nat)
    requires |small| == NSMALLBINS && |tree| == NTREEBINS && b < NSMALLBINS + NTREEBINS
  {
    if b < NSMALLBINS then SmallOk(m, small[b], b, sizes) else TreeOk(m, tree[b - NSMALLBINS], b - NSMALLBINS, sizes)
  }

  ghost predicate AllOkBut(m: Memory, small: seq<seq<Addr>>, tree: seq<Trie>, sizes: map<Addr, nat>, but: int)
    requires |small| == NSMALLBINS && |tree| == NTREEBINS
  {
    forall b :: 0 <= b < NSMALLBINS + NTREEBINS && b != but ==> BinOk(m, small, tree, sizes, b)
  }

  lemma OthersKept(m: Memory, m': Memory, xs: set<Addr>, small: seq<seq<Addr>>, tree: seq<Trie>,
                   sizes: map<Addr, nat>, sizes': map<Addr, nat>, but: nat)
    requires |small| == NSMALLBINS && |tree| == NTREEBINS && AllOkBut(m, small, tree, sizes, but)
    requires SameBut(m, m', xs)
    requires forall x :: x in xs && x in sizes ==> BinOf(sizes[x]) == but
    requires forall x :: x in xs && x < 0 ==> x == SmallBinAt(but)
    requires forall x :: x in sizes && BinOf(sizes[x]) != but ==> x in sizes' && sizes'[x] == sizes[x]
    ensures AllOkBut(m', small, tree, sizes', but)
  {
    forall b: nat | b < NSMALLBINS + NTREEBINS && b != but ensures BinOk(m', small, tree, sizes', b) {
      assert BinOk(m, small, tree, sizes, b);
      if b < NSMALLBINS {
        SmallKept(m, m', xs, small[b], b, sizes, sizes');
      } else {
        TreeKept(m, m', xs, tree[b - NSMALLBINS], b - NSMALLBINS, sizes, sizes');
      }
    }
  }

  // -------------------------------------------------------------------- small lists

  // insert_small_chunk on the list of one bin.
  lemma SmallIn(m: Memory, list: seq<Addr>, i: nat, sizes: map<Addr, nat>, p: Addr)
    requires SmallOk(m, list, i, sizes) && p > 0 && p !in sizes && i < NSMALLBINS
    ensures var b := SmallBinAt(i);
      var f := if list == [] then b else Get(m, b).fd;
      var m' := LinkIn(m, b, f, p);
      && SmallOk(m', [p] + list, i, sizes[p := 8 * i]) && SameBut(m, m', {b, f, p})
      && (f == b || f in list)
  {
    var b, list' := SmallBinAt(i), [p] + list;
    if list == [] {
      LinkedIn(m, b, b, p);
      assert [b] + list' == [b, p];
    } else {
      var ring := [b] + list;
      assert forall x :: x in list ==> x in ring;
      RingInsert(m, ring, p);
      LinkedIn(m, b, Get(m, b).fd, p);
      assert ring[1..] == list && WithSecond(ring, p) == [b] + list';
    }
  }

  // unlink_small_chunk: the list without the chunk at k.
  lemma SmallOut(m: Memory, list: seq<Addr>, i: nat, sizes: map<Addr, nat>, k: nat)
    requires SmallOk(m, list, i, sizes) && k < |list| && i < NSMALLBINS
    ensures var p, b, f, list' := list[k], Get(m, list[k]).bk, Get(m, list[k]).fd, list[..k] + list[k + 1..];
      && (b == f <==> list' == [])
      && (list' != [] ==> SmallOk(LinkOut(m, b, f), list', i, sizes - {p}) && SameBut(m, LinkOut(m, b, f), {b, f}))
      && (b == SmallBinAt(i) || b in list) && (f == SmallBinAt(i) || f in list)
  {
    var ring := [SmallBinAt(i)] + list;
    var p, b, f, list' := list[k], Get(m, list[k]).bk, Get(m, list[k]).fd, list[..k] + list[k + 1..];
    assert ring[k + 1] == p;
    RingNeighbours(m, ring, k + 1);
    assert b == ring[k] && f == ring[Next(k + 1, |ring|)];
    if list' != [] {
      RingRemove(m, ring, k + 1);
      LinkedOut(m, b, f);
      assert WithoutAt(ring, k + 1) == [SmallBinAt(i)] + list';
      forall x | x in list' ensures x in list && x != p {
        var j :| 0 <= j < |list'| && list'[j] == x;
        assert list'[j] == ring[if j < k then j + 1 else j + 2];
      }
    }
  }

  lemma WithoutOne(list: seq<Addr>, k: nat, x: Addr)
    requires k < |list| && Distinct(list)
    ensures x in list[..k] + list[k + 1..] <==> x in list && x != list[k]
  {
    var list' := list[..k] + list[k + 1..];
    if x in list && x != list[k] {
      var j :| 0 <= j < |list| && list[j] == x;
      assert list'[if j < k then j else j - 1] == x;
    }
    if x in list' {
      var j :| 0 <= j < |list'| && list'[j] == x;
      assert list'[j] == list[if j < k then j else j + 1];
    }
  }

  // -------------------------------------------------------------------- all the bins

  // All bins are sound, and hold exactly these chunks.
  ghost predicate Holds(m: Memory, small: seq<seq<Addr>>, tree: seq<Trie>, sizes: map<Addr, nat>) {
    && |small| == NSMALLBINS && |tree| == NTREEBINS
    && AllOkBut(m, small, tree, sizes, -1) && Covered(small, tree, sizes)
  }

  // One small bin was replaced, the others stay as they were.
  lemma SmallReplaced(m: Memory, m': Memory, xs: set<Addr>, small: seq<seq<Addr>>, tree: seq<Trie>,
                      sizes: map<Addr, nat>, sizes': map<Addr, nat>, i: nat, list: seq<Addr>)
    requires Holds(m, small, tree, sizes) && i < NSMALLBINS && SameBut(m, m', xs)
    requires forall x :: x in xs && x in sizes ==> BinOf(sizes[x]) == i
    requires forall x :: x in xs && x < 0 ==> x == SmallBinAt(i)
    requires forall x :: x in sizes && BinOf(sizes[x]) != i ==> x in sizes' && sizes'[x] == sizes[x]
    requires forall x :: x in sizes' ==> x > 0 && ChunkSize(sizes'[x])
    requires forall x :: x in sizes' && BinOf(sizes'[x]) != i ==> x in sizes && sizes[x] == sizes'[x]
    requires forall x :: x in sizes' && BinOf(sizes'[x]) == i ==> x in list
    requires SmallOk(m', list, i, sizes')
    ensures Holds(m', small[i := list], tree, sizes')
  {
    OthersKept(m, m', xs, small, tree, sizes, sizes', i);
    var small' := small[i := list];
    forall b: nat | b < NSMALLBINS + NTREEBINS ensures BinOk(m', small', tree, sizes', b) {
      if b != i {
        assert BinOk(m', small, tree, sizes', b);
      }
    }
    forall x | x in sizes'
      ensures if IsSmall(sizes'[x]) then x in small'[sizes'[x] / 8] else x in Members(tree[TreeIndex(sizes'[x])])
    {
      assert BinOf(sizes'[x]) == i || x in sizes;
    }
  }

  lemma TreeReplaced(m: Memory, m': Memory, xs: set<Addr>, small: seq<seq<Addr>>, tree: seq<Trie>,
                     sizes: map<Addr, nat>, sizes': map<Addr, nat>, i: nat, t: Trie)
    requires Holds(m, small, tree, sizes) && i < NTREEBINS && SameBut(m, m', xs)
    requires forall x :: x in xs && x in sizes ==> BinOf(sizes[x]) == NSMALLBINS + i
    requires forall x :: x in xs ==> x > 0
    requires forall x :: x in sizes && BinOf(sizes[x]) != NSMALLBINS + i ==> x in sizes' && sizes'[x] == sizes[x]
    requires forall x :: x in sizes' ==> x > 0 && ChunkSize(sizes'[x])
    requires forall x :: x in sizes' && BinOf(sizes'[x]) != NSMALLBINS + i ==> x in sizes && sizes[x] == sizes'[x]
    requires forall x :: x in sizes' && BinOf(sizes'[x]) == NSMALLBINS + i ==> x in Members(t)
    requires TreeOk(m', t, i, sizes')
    ensures Holds(m', small, tree[i := t], sizes')
  {
    OthersKept(m, m', xs, small, tree, sizes, sizes', NSMALLBINS + i);
    var tree' := tree[i := t];
    forall b: nat | b < NSMALLBINS + NTREEBINS ensures BinOk(m', small, tree', sizes', b) {
      if b != NSMALLBINS + i {
        assert BinOk(m', small, tree, sizes', b);
      }
    }
    forall x | x in sizes'
      ensures if IsSmall(sizes'[x]) then x in small[sizes'[x] / 8] else x in Members(tree'[TreeIndex(sizes'[x])])
    {
      assert BinOf(sizes'[x]) == NSMALLBINS + i || x in sizes;
    }
  }

  // What a chunk's size says about the bin it is in.
  lemma InItsBin(m: Memory, small: seq<seq<Addr>>, tree: seq<Trie>, sizes: map<Addr, nat>, x: Addr)
    requires Holds(m, small, tree, sizes) && x in sizes
    ensures x > 0 && ChunkSize(sizes[x])
    ensures IsSmall(sizes[x]) ==> x in small[sizes[x] / 8] && SmallOk(m, small[sizes[x] / 8], sizes[x] / 8, sizes)
    ensures var i := TreeIndex(sizes[x]);
      !IsSmall(sizes[x]) ==> x in Members(tree[i]) && TreeOk(m, tree[i], i, sizes)
  {
    assert BinOk(m, small, tree, sizes, BinOf(sizes[x]));
  }

  lemma SmallHeld(m: Memory, small: seq<seq<Addr>>, tree: seq<Trie>, sizes: map<Addr, nat>, i: nat)
    requires Holds(m, small, tree, sizes) && i < NSMALLBINS
    ensures SmallOk(m, small[i], i, sizes)
    ensures forall x :: x in small[i] ==> x in sizes && sizes[x] == 8 * i && BinOf(sizes[x]) == i
  {
    assert BinOk(m, small, tree, sizes, i);
  }

  lemma TreeHeld(m: Memory, small: seq<seq<Addr>>, tree: seq<Trie>, sizes: map<Addr, nat>, i: nat)
    requires Holds(m, small, tree, sizes) && i < NTREEBINS
    ensures TreeOk(m, tree[i], i, sizes)
    ensures forall x :: x in Members(tree[i]) ==> x in sizes && BinOf(sizes[x]) == NSMALLBINS + i
  {
    assert BinOk(m, small, tree, sizes, NSMALLBINS + i);
  }

  lemma SmallInserted(m: Memory, small: seq<seq<Addr>>, tree: seq<Trie>, sizes: map<Addr, nat>, p: Addr, size: nat)
    requires Holds(m, small, tree, sizes) && p > 0 && p !in sizes && ChunkSize(size) && IsSmall(size)
    ensures var i := size / 8;
      var b := SmallBinAt(i);
      var f := if small[i] == [] then b else Get(m, b).fd;
      Holds(LinkIn(m, b, f, p), small[i := [p] + small[i]], tree, sizes[p := size])
  {
    var i := size / 8;
    var b := SmallBinAt(i);
    var f := if small[i] == [] then b else Get(m, b).fd;
    SmallHeld(m, small, tree, sizes, i);
    SmallIn(m, small[i], i, sizes, p);
    forall x | x in sizes && BinOf(sizes[x]) == i ensures x in small[i] {
      InItsBin(m, small, tree, sizes, x);
    }
    SmallReplaced(m, LinkIn(m, b, f, p), {b, f, p}, small, tree, sizes, sizes[p := size], i, [p] + small[i]);
  }

  lemma SmallRemoved(m: Memory, small: seq<seq<Addr>>, tree: seq<Trie>, sizes: map<Addr, nat>, i: nat, k: nat)
    requires Holds(m, small, tree, sizes) && i < NSMALLBINS && k < |small[i]|
    ensures var p, list := small[i][k], small[i][..k] + small[i][k + 1..];
      var b, f := Get(m, p).bk, Get(m, p).fd;
      && (b == f <==> list == [])
      && Holds(if b == f then m else LinkOut(m, b, f), small[i := list], tree, sizes - {p})
  {
    var p, list := small[i][k], small[i][..k] + small[i][k + 1..];
    var b, f := Get(m, p).bk, Get(m, p).fd;
    var m' := if b == f then m else LinkOut(m, b, f);
    SmallHeld(m, small, tree, sizes, i);
    SmallOut(m, small[i], i, sizes, k);
    forall x | x in sizes && x != p && BinOf(sizes[x]) == i ensures x in list {
      InItsBin(m, small, tree, sizes, x);
      assert Distinct(small[i]) by {
        var ring := [SmallBinAt(i)] + small[i];
        assert forall j :: 0 <= j < |small[i]| ==> small[i][j] == ring[j + 1];
      }
      WithoutOne(small[i], k, x);
    }
    assert SameBut(m, m', {b, f});
    SmallReplaced(m, m', {b, f}, small, tree, sizes, sizes - {p}, i, list);
  }

  // ------------------------------------------------------------------------- tries

  // One trie was replaced by the one with x inserted.
  lemma TreeInserted(m: Memory, m': Memory, small: seq<seq<Addr>>, tree: seq<Trie>, sizes: map<Addr, nat>,
                     i: nat, x: Addr, size: nat, xs: set<Addr>)
    requires Holds(m, small, tree, sizes) && x > 0 && x !in sizes && ChunkSize(size) && !IsSmall(size)
    requires i == TreeIndex(size) && SameBut(m, m', xs) && xs <= Members(tree[i]) + {x}
    requires InTree(tree[i], i, size) && Wired(m', Grown(tree[i], i, x, size), Slot(i), i)
    ensures Holds(m', small, tree[i := Grown(tree[i], i, x, size)], sizes[x := size])
  {
    hide Wired;
    hide Insert;
    hide InRange;
    hide Proper;
    hide SmallOk;
    var t, t' := tree[i], Grown(tree[i], i, x, size);
    var lo, e, sizes' := BinLo(i), BinBits(i), sizes[x := size];
    TreeHeld(m, small, tree, sizes, i);
    InsertMembers(t, lo, e, x, size);
    InsertProper(t, lo, e, x, size);
    InsertRange(t, lo, e, x, size);
    InsertSized(t, lo, e, x, size, sizes);
    forall y | y in sizes && BinOf(sizes[y]) == NSMALLBINS + i ensures y in Members(t) {
      InItsBin(m, small, tree, sizes, y);
    }
    MembersPositive(t);
    TreeReplaced(m, m', xs, small, tree, sizes, sizes', i, t');
  }

  lemma {:induction false} MembersPositive(t: Trie)
    requires Proper(t)
    ensures forall x :: x in Members(t) ==> x > 0
  {
    if t.Node? {
      MembersPositive(t.left);
      MembersPositive(t.right);
    }
  }

  // A size fits into a bin's trie.
  ghost predicate InTree(t: Trie, i: nat, size: nat) {
    i < NTREEBINS && Proper(t) && InRange(t, BinLo(i), BinBits(i)) && BinLo(i) <= size < BinLo(i) + Pow2(BinBits(i))
  }

  ghost function Grown(t: Trie, i: nat, x: Addr, size: nat): Trie
    requires InTree(t, i, size)
  {
    Insert(t, BinLo(i), BinBits(i), x, size)
  }

  lemma FitsTree(m: Memory, small: seq<seq<Addr>>, tree: seq<Trie>, sizes: map<Addr, nat>, size: nat)
    requires Holds(m, small, tree, sizes) && ChunkSize(size) && !IsSmall(size)
    ensures InTree(tree[TreeIndex(size)], TreeIndex(size), size)
  {
    TreeHeld(m, small, tree, sizes, TreeIndex(size));
    TreeIndexRight(size);
    InBinRange(TreeIndex(size), size);
  }

  // On the way down to where x belongs: `sub` is the subtree at `path`, k its remaining size bits.
  ghost predicate OnTheWay(t: Trie, i: nat, x: Addr, size: nat, path: Path, sub: Trie, lo: nat, e: nat, k: nat) {
    && InTree(t, i, size) && ValidPath(t, path) && At(t, path) == sub && sub.Node? && Proper(sub)
    && InRange(sub, lo, e) && lo <= size < lo + Pow2(e) && Halves(k, Pow2(e), size - lo)
    && Grown(t, i, x, size) == ReplaceAt(t, path, Insert(sub, lo, e, x, size))
  }

  lemma StartOfWay(t: Trie, i: nat, x: Addr, size: nat)
    requires InTree(t, i, size) && t.Node? && size < TWO64
    ensures OnTheWay(t, i, x, size, [], t, BinLo(i), BinBits(i), SizeBitsFor(i, size))
  {
    SizeBitsHalve(i, size);
  }

  lemma FurtherDown(t: Trie, i: nat, x: Addr, size: nat, path: Path, sub: Trie, lo: nat, e: nat, k: nat)
    requires OnTheWay(t, i, x, size, path, sub, lo, e, k) && sub.size != size
    ensures e > 0
    ensures var side := k >= TWO63;
      var c := Child(sub, side);
      && (c.Nil? ==> Grown(t, i, x, size) == ReplaceAt(t, path, WithChild(sub, side, Node([x], size, Nil, Nil))))
      && (c.Node? ==> OnTheWay(t, i, x, size, path + [side], c, HalfLo(lo, e, side), e - 1, ShiftLeft(k)))
  {
    var side := k >= TWO63;
    WhichSide(sub, size, lo, e, k);
    InsertDown(sub, lo, e, x, size, side);
    StepDown(t, path, side);
    hide InRange;
    hide Insert;
    hide Proper;
  }

  // The highest of the remaining size bits says on which side to go on.
  lemma WhichSide(sub: Trie, size: nat, lo: nat, e: nat, k: nat)
    requires sub.Node? && InRange(sub, lo, e) && lo <= size < lo + Pow2(e) && sub.size != size
    requires Halves(k, Pow2(e), size - lo)
    ensures e > 0 && (k >= TWO63 <==> size >= lo + Pow2(e - 1))
    ensures Halves(ShiftLeft(k), Pow2(e - 1), size - HalfLo(lo, e, k >= TWO63))
  {
    ChildRange(sub, lo, e, size, e > 0 && size >= lo + Pow2(e - 1));
    NextHalf(k, Pow2(e), size - lo);
  }

  lemma InsertDown(t: Trie, lo: nat, e: nat, x: Addr, s: nat, side: bool)
    requires t.Node? && InRange(t, lo, e) && lo <= s < lo + Pow2(e) && Proper(t) && t.size != s && e > 0
    requires side <==> s >= lo + Pow2(e - 1)
    ensures var c, lo' := Child(t, side), HalfLo(lo, e, side);
      && InRange(c, lo', e - 1) && lo' <= s < lo' + Pow2(e - 1) && Proper(c)
      && Insert(t, lo, e, x, s) == WithChild(t, side, Insert(c, lo', e - 1, x, s))
      && (c.Nil? ==> Insert(c, lo', e - 1, x, s) == Node([x], s, Nil, Nil))
  {
    ChildRange(t, lo, e, s, side);
    ChildParts(t, side);
  }

  lemma WayWired(m: Memory, t: Trie, i: nat, path: Path, sizes: map<Addr, nat>)
    requires TreeOk(m, t, i, sizes) && ValidPath(t, path) && At(t, path).Node?
    ensures var sub := At(t, path);
      var head := Root(sub);
      && Proper(sub) && sub.ring != [] && head == sub.ring[0] && RingOk(m, sub.ring)
      && Get(m, head).left == Root(sub.left) && Get(m, head).right == Root(sub.right)
      && (sub.left.Nil? <==> Get(m, head).left == 0) && (sub.right.Nil? <==> Get(m, head).right == 0)
      && head in sizes && sizes[head] == sub.size && head in Members(t) && Members(sub) <= Members(t)
  {
    AtMembers(t, path);
    WiredAt(m, t, path, Slot(i), i);
    AtSized(t, path, sizes);
    RootMember(At(t, path).left);
    RootMember(At(t, path).right);
    assert At(t, path).ring[0] in At(t, path).ring;
  }

  // The map of small bins marks those that are not empty.
  ghost predicate Marked(smallmap: BinMap, small: seq<seq<Addr>>) {
    |small| == NSMALLBINS && forall i: nat :: IsMarked(smallmap, i) <==> i < NSMALLBINS && small[i] != []
  }

  lemma MarkedReplaced(smallmap: BinMap, small: seq<seq<Addr>>, i: nat, list: seq<Addr>)
    requires Marked(smallmap, small) && i < NSMALLBINS
    ensures Marked(if list == [] then Clear(smallmap, i) else Mark(smallmap, i), small[i := list])
    ensures small[i] != [] && list != [] ==> Marked(smallmap, small[i := list])
  {
    hide IsMarked, Mark, Clear;
    forall j: nat
      ensures IsMarked(Mark(smallmap, i), j) <==> IsMarked(smallmap, j) || j == i
      ensures IsMarked(Clear(smallmap, i), j) <==> IsMarked(smallmap, j) && j != i
    {
      MarkExactly(smallmap, i, j);
    }
  }

  // The map of tree bins marks those that are not empty, and the array holds their roots.
  ghost predicate Rooted(treemap: BinMap, treebins: seq<Addr>, tree: seq<Trie>) {
    && |tree| == NTREEBINS && |treebins| == NTREEBINS
    && (forall i :: 0 <= i < NTREEBINS ==> treebins[i] == Root(tree[i]))
    && (forall i: nat :: IsMarked(treemap, i) <==> i < NTREEBINS && tree[i].Node?)
  }

  lemma RootedAt(treemap: BinMap, treebins: seq<Addr>, tree: seq<Trie>, i: nat)
    requires Rooted(treemap, treebins, tree) && i < NTREEBINS
    ensures |tree| == |treebins| == NTREEBINS && treebins[i] == Root(tree[i])
    ensures IsMarked(treemap, i) <==> tree[i].Node?
  {
    hide IsMarked;
  }

  lemma RootedReplaced(treemap: BinMap, treebins: seq<Addr>, tree: seq<Trie>, i: nat, t: Trie)
    requires Rooted(treemap, treebins, tree) && i < NTREEBINS
    ensures Rooted(if t.Nil? then Clear(treemap, i) else Mark(treemap, i), treebins[i := Root(t)], tree[i := t])
    ensures tree[i].Node? && t.Node? ==> Rooted(treemap, treebins[i := Root(t)], tree[i := t])
  {
    hide IsMarked, Mark, Clear;
    forall j: nat
      ensures IsMarked(Mark(treemap, i), j) <==> IsMarked(treemap, j) || j == i
      ensures IsMarked(Clear(treemap, i), j) <==> IsMarked(treemap, j) && j != i
    {
      MarkExactly(treemap, i, j);
    }
  }

  lemma GrownRoot(t: Trie, i: nat, x: Addr, size: nat)
    requires InTree(t, i, size)
    ensures Grown(t, i, x, size).Node? && Root(Grown(t, i, x, size)) == (if t.Nil? then x else Root(t))
  {
  }

  // --------------------------------------------------------------------------- bins

  class Bins {
    var mem: Memory
    var smallmap: BinMap         // the small bins marked as not empty
    var treemap: BinMap
    var treebins: seq<Addr>      // the roots of the tree bins
    ghost var small: seq<seq<Addr>>
    ghost var tree: seq<Trie>
    ghost var sizes: map<Addr, nat>   // all free chunks in bins, with their sizes

    ghost predicate Valid()
      reads this
    {
      Holds(mem, small, tree, sizes) && Marked(smallmap, small) && Rooted(treemap, treebins, tree)
    }

    // init_bins on zeroed memory.
    constructor ()
      ensures Valid() && sizes == map[]
    {
      mem, smallmap, treemap := map[], 0, 0;
      treebins := seq(NTREEBINS, i => 0);
      small := seq(NSMALLBINS, i => []);
      tree := seq(NTREEBINS, i => Nil);
      sizes := map[];
      new;
      hide IsMarked;
      ZeroExactly(0);
    }

    // insert_small_chunk.
    method InsertSmall(p: Addr, size: nat)
      requires Valid() && p > 0 && p !in sizes && ChunkSize(size) && IsSmall(size)
      modifies this
      ensures Valid() && sizes == old(sizes)[p := size]
    {
      hide IsMarked, Mark, Clear;
      hide AllOkBut;
      hide Covered;
      var i := size / 8;
      var b := SmallBinAt(i);
      var f := b;
      SmallInserted(mem, small, tree, sizes, p, size);
      MarkedReplaced(smallmap, small, i, [p] + small[i]);
      if !IsMarked(smallmap, i) {
        smallmap := Mark(smallmap, i);
      } else {
        f := Get(mem, b).fd;
      }
      mem := SetFd(mem, b, p);
      mem := SetBk(mem, f, p);
      mem := SetFd(mem, p, f);
      mem := SetBk(mem, p, b);
      sizes := sizes[p := size];
      small := small[i := [p] + small[i]];
    }

    // unlink_small_chunk.
    method UnlinkSmall(p: Addr, size: nat)
      requires Valid() && p in sizes && sizes[p] == size && IsSmall(size)
      modifies this
      ensures Valid() && sizes == old(sizes) - {p}
    {
      hide IsMarked, Mark, Clear;
      hide AllOkBut;
      hide Covered;
      var f, b := Get(mem, p).fd, Get(mem, p).bk;
      var i := size / 8;
      InItsBin(mem, small, tree, sizes, p);
      ghost var k :| 0 <= k < |small[i]| && small[i][k] == p;
      SmallRemoved(mem, small, tree, sizes, i, k);
      MarkedReplaced(smallmap, small, i, small[i][..k] + small[i][k + 1..]);
      if f == b {
        smallmap := Clear(smallmap, i);
      } else {
        mem := SetBk(mem, f, b);
        mem := SetFd(mem, b, f);
      }
      sizes := sizes - {p};
      small := small[i := small[i][..k] + small[i][k + 1..]];
    }

    // The first chunk of a marked small bin, and unlink_first_small_chunk.
    method UnlinkFirstSmall(i: nat) returns (p: Addr)
      requires Valid() && IsMarked(smallmap, i)
      modifies this
      ensures Valid() && p in old(sizes) && old(sizes)[p] == 8 * i && sizes == old(sizes) - {p}
    {
      hide IsMarked, Mark, Clear;
      hide AllOkBut;
      hide Covered;
      var b := SmallBinAt(i);
      p := Get(mem, b).fd;
      var f := Get(mem, p).fd;
      SmallHeld(mem, small, tree, sizes, i);
      FirstOfList(mem, small[i], i, sizes);
      SmallRemoved(mem, small, tree, sizes, i, 0);
      MarkedReplaced(smallmap, small, i, small[i][..0] + small[i][1..]);
      if b == f {
        smallmap := Clear(smallmap, i);
      } else {
        LinkOutCommutes(mem, b, f);
        mem := SetFd(mem, b, f);
        mem := SetBk(mem, f, b);
      }
      sizes := sizes - {p};
      small := small[i := small[i][..0] + small[i][1..]];
    }

    // The links of a new tree chunk, before it is hung anywhere.
    method StartTreeChunk(x: Addr, i: nat)
      modifies `mem
      ensures mem == Started(old(mem), x, i)
    {
      mem := mem[x := Get(mem, x).(index := i)];
      mem := SetChild(mem, x, false, 0);
      mem := SetChild(mem, x, true, 0);
    }

    // insert_large_chunk; `chunksize` are the sizes in the heads of the chunks.
    method InsertLarge(x: Addr, size: nat, chunksize: map<Addr, nat>)
      requires Valid() && x > 0 && x !in sizes && ChunkSize(size) && !IsSmall(size)
      requires forall y :: y in sizes ==> y in chunksize && chunksize[y] == sizes[y]
      modifies this
      ensures Valid() && sizes == old(sizes)[x := size]
    {
      hide IsMarked, Mark, Clear;
      hide Rooted;
      hide Holds;
      hide Wired;
      hide AllOkBut;
      hide Covered;
      hide TreeOk;
      var i := TreeIndex(size);
      RootedAt(treemap, treebins, tree, i);
      ghost var m0, t := mem, tree[i];
      FitsTree(mem, small, tree, sizes, size);
      TreeHeld(mem, small, tree, sizes, i);
      StartTreeChunk(x, i);
      RootedReplaced(treemap, treebins, tree, i, Grown(t, i, x, size));
      GrownRoot(t, i, x, size);
      if !IsMarked(treemap, i) {
        treemap := Mark(treemap, i);
        treebins := treebins[i := x];
        mem := SetParent(mem, x, Slot(i));
        mem := SetFd(mem, x, x);
        mem := SetBk(mem, x, x);
        WiredLeaf(mem, x, size, Slot(i), i);
        TreeInserted(m0, mem, small, tree, sizes, i, x, size, {x});
      } else {
        Hang(x, size, i, chunksize, m0);
      }
      assert treebins == old(treebins)[i := Root(Grown(t, i, x, size))];
      tree := tree[i := Grown(t, i, x, size)];
      sizes := sizes[x := size];
    }

    // The walk down the trie, and the chunk's place at its end.
    method Hang(x: Addr, size: nat, i: nat, chunksize: map<Addr, nat>, ghost m0: Memory)
      requires Holds(m0, small, tree, sizes) && |treebins| == NTREEBINS && i == TreeIndex(size)
      requires tree[i].Node? && treebins[i] == Root(tree[i]) && InTree(tree[i], i, size)
      requires x > 0 && x !in sizes && ChunkSize(size) && !IsSmall(size)
      requires mem == Started(m0, x, i)
      requires forall y :: y in sizes ==> y in chunksize && chunksize[y] == sizes[y]
      modifies `mem
      ensures Holds(mem, small, tree[i := Grown(tree[i], i, x, size)], sizes[x := size])
      ensures Root(Grown(tree[i], i, x, size)) == Root(tree[i])
    {
      hide AllOkBut;
      hide Covered;
      hide TreeOk;
      hide OnTheWay;
      var T := treebins[i];
      var k: nat := SizeBitsFor(i, size);
      ghost var t, m1 := tree[i], mem;
      ghost var path: Path, sub, lo: nat, e: nat := [], t, BinLo(i), BinBits(i);
      TreeHeld(m0, small, tree, sizes, i);
      StartOfWay(t, i, x, size);
      while true
        invariant mem == m1 && T == Root(sub)
        invariant OnTheWay(t, i, x, size, path, sub, lo, e, k)
        decreases sub
      {
        WayFacts(t, i, x, size, path, sub, lo, e, k);
        WayWired(m0, t, i, path, sizes);
        if chunksize[T] != size {
          FurtherDown(t, i, x, size, path, sub, lo, e, k);
          var side := k >= TWO63;
          var c := ChildOf(mem, T, side);
          k := ShiftLeft(k);
          if c != 0 {
            T := c;
            lo, e, path, sub := HalfLo(lo, e, side), e - 1, path + [side], Child(sub, side);
          } else {
            HangBelow(T, side, x, size, i, path, m0);
            return;
          }
        } else {
          JoinRing(T, x, size, i, path, m0);
          return;
        }
      }
    }

    // *C = X; X->parent = T; X->fd = X->bk = X.
    method HangBelow(T: Addr, side: bool, x: Addr, size: nat, i: nat, ghost path: Path, ghost m0: Memory)
      requires Holds(m0, small, tree, sizes) && x > 0 && x !in sizes && ChunkSize(size) && !IsSmall(size)
      requires i == TreeIndex(size) && InTree(tree[i], i, size) && ValidPath(tree[i], path)
      requires At(tree[i], path).Node? && Child(At(tree[i], path), side).Nil? && T == Root(At(tree[i], path))
      requires var sub := At(tree[i], path);
        Grown(tree[i], i, x, size) == ReplaceAt(tree[i], path, WithChild(sub, side, Node([x], size, Nil, Nil)))
      requires mem == Started(m0, x, i)
      modifies `mem
      ensures Holds(mem, small, tree[i := Grown(tree[i], i, x, size)], sizes[x := size])
      ensures Root(Grown(tree[i], i, x, size)) == Root(tree[i])
    {
      hide Holds;
      hide InTree;
      mem := SetChild(mem, T, side, x);
      mem := SetParent(mem, x, Chunk(T));
      mem := SetFd(mem, x, x);
      mem := SetBk(mem, x, x);
      HungBelow(m0, mem, small, tree, sizes, i, x, size, path, side);
    }

    // F = T->fd; T->fd = F->bk = X; X->fd = F; X->bk = T; X->parent = 0.
    method JoinRing(T: Addr, x: Addr, size: nat, i: nat, ghost path: Path, ghost m0: Memory)
      requires Holds(m0, small, tree, sizes) && x > 0 && x !in sizes && ChunkSize(size) && !IsSmall(size)
      requires i == TreeIndex(size) && InTree(tree[i], i, size) && ValidPath(tree[i], path)
      requires At(tree[i], path).Node? && At(tree[i], path).ring != [] && T == At(tree[i], path).ring[0]
      requires var sub := At(tree[i], path);
        Grown(tree[i], i, x, size) == ReplaceAt(tree[i], path, sub.(ring := WithSecond(sub.ring, x)))
      requires mem == Started(m0, x, i) && T != x
      modifies `mem
      ensures Holds(mem, small, tree[i := Grown(tree[i], i, x, size)], sizes[x := size])
      ensures Root(Grown(tree[i], i, x, size)) == Root(tree[i])
    {
      hide Holds;
      hide InTree;
      var f := Get(mem, T).fd;
      mem := SetFd(mem, T, x);
      mem := SetBk(mem, f, x);
      mem := SetFd(mem, x, f);
      mem := SetBk(mem, x, T);
      mem := SetParent(mem, x, Null);
      HungIn(m0, mem, small, tree, sizes, i, x, size, path);
    }

    // The leaf whose ring takes the place of an emptied one: cut off from its parent. 0 if there is none.
    method CutLeaf(x: Addr, ghost sub: Trie, ghost up: Link, ghost i: nat) returns (r: Addr)
      requires sub.Node? && Proper(sub) && Wired(mem, sub, up, i) && |sub.ring| == 1 && x == sub.ring[0]
      modifies `mem
      ensures r == Root(RemoveRoot(sub, 0)) && Lifted(mem, x, RemoveRoot(sub, 0), i)
      ensures SameBut(old(mem), mem, Members(sub)) && Get(mem, x).index == old(Get(mem, x).index)
      ensures Get(mem, x).parent == old(Get(mem, x).parent)
    {
      hide RemoveRoot;
      hide Lifted;
      var rp := Place(x, true);
      r := Get(mem, x).right;
      ChildLinks(mem, sub, up, i);
      if r == 0 {
        rp := Place(x, false);
        r := Get(mem, x).left;
      }
      if r == 0 {
        NoLeaf(mem, sub, i);
      } else {
        ghost var cur := if sub.right.Node? then sub.right else sub.left;
        ghost var from, m0, cup := rp, mem, Chunk(x);
        while Get(mem, r).right != 0 || Get(mem, r).left != 0
          invariant mem == m0 && cur.Node? && r == Root(cur) && Proper(cur) && Wired(mem, cur, cup, i)
          invariant LeafSlot(sub, from) == LeafSlot(cur, rp) && TakeLeaf(sub).0 == TakeLeaf(cur).0
          decreases cur
        {
          ChildLinks(mem, cur, cup, i);
          cup := Chunk(r);
          if Get(mem, r).right != 0 {
            rp := Place(r, true);
            cur := cur.right;
          } else {
            rp := Place(r, false);
            cur := cur.left;
          }
          r := ChildOf(mem, rp.at, rp.side);
        }
        ChildLinks(mem, cur, cup, i);
        mem := SetChild(mem, rp.at, rp.side, 0);
        LeafOut(m0, sub, from, up, i);
        assert LeafSlot(cur, rp) == rp && TakeLeaf(cur).0 == cur;
      }
    }

    // if (XP != 0) {...}: the new first chunk r, or nothing, takes the place of x in the tree.
    method Replace(x: Addr, xp: Link, r: Addr, i: nat, ghost t: Trie, ghost path: Path, ghost m0: Memory)
      requires |treebins| == NTREEBINS && i < NTREEBINS && treebins[i] == Root(t)
      requires Proper(t) && Wired(m0, t, Slot(i), i) && ValidPath(t, path) && At(t, path).Node?
      requires At(t, path).ring != [] && x == At(t, path).ring[0] && xp == UpAt(t, path, Slot(i))
      requires SameBut(m0, mem, Members(At(t, path))) && r == Root(RemoveRoot(At(t, path), 0))
      requires Lifted(mem, x, RemoveRoot(At(t, path), 0), i)
      modifies this`mem, this`treebins, this`treemap
      ensures var t' := ReplaceAt(t, path, RemoveRoot(At(t, path), 0));
        && Wired(mem, t', Slot(i), i) && SameBut(m0, mem, Members(t)) && treebins == old(treebins)[i := Root(t')]
        && treemap == (if t'.Nil? then Clear(old(treemap), i) else old(treemap))
    {
      hide IsMarked, Clear;
      hide RemoveRoot;
      hide Lifted;
      hide Wired;
      PlaceOfHead(m0, mem, t, path, i);
      HeadReplaced(m0, mem, t, path, i);
      if x == treebins[i] {
        treebins := treebins[i := r];
        if r == 0 {
          treemap := Clear(treemap, i);
        }
      } else {
        if Get(mem, xp.at).left == x {
          mem := SetChild(mem, xp.at, false, r);
        } else {
          mem := SetChild(mem, xp.at, true, r);
        }
      }
      if r != 0 {
        var c0 := Get(mem, x).left;
        var c1 := Get(mem, x).right;
        mem := SetParent(mem, r, xp);
        if c0 != 0 {
          mem := SetChild(mem, r, false, c0);
          mem := SetParent(mem, c0, Chunk(r));
        }
        if c1 != 0 {
          mem := SetChild(mem, r, true, c1);
          mem := SetParent(mem, c1, Chunk(r));
        }
      }
    }

    // The chunk leaves its ring; if that was the only chunk, a leaf is cut off to take its place.
    method LeaveRing(x: Addr, ghost t: Trie, ghost path: Path, ghost i: nat, ghost k: nat) returns (r: Addr)
      requires TreeOk(mem, t, i, sizes) && ValidPath(t, path) && At(t, path).Node?
      requires k < |At(t, path).ring| && At(t, path).ring[k] == x
      modifies `mem
      ensures k == 0 ==> r == Root(RemoveRoot(At(t, path), 0)) && Lifted(mem, x, RemoveRoot(At(t, path), 0), i)
      ensures k == 0 ==> SameBut(old(mem), mem, Members(At(t, path)))
      ensures k > 0 ==> Wired(mem, ReplaceAt(t, path, RemoveRoot(At(t, path), k)), Slot(i), i)
      ensures k > 0 ==> SameBut(old(mem), mem, Members(t))
      ensures Get(mem, x).index == old(Get(mem, x).index)
    {
      hide TreeOk;
      hide Wired;
      hide RemoveRoot;
      hide Lifted;
      ghost var m0, sub, up := mem, At(t, path), UpAt(t, path, Slot(i));
      NodeOfChunk(mem, t, i, sizes, path, k);
      if Get(mem, x).bk != x {
        var f := Get(mem, x).fd;
        r := Get(mem, x).bk;
        mem := SetBk(mem, f, r);
        mem := SetFd(mem, r, f);
        LinkedOut(m0, r, f);
        if k == 0 {
          RingHeadOut(m0, sub, up, i);
        } else {
          RingRestOut(m0, t, path, i, k);
        }
      } else {
        r := CutLeaf(x, sub, up, i);
      }
    }

    // unlink_large_chunk.
    method UnlinkLarge(x: Addr)
      requires Valid() && x in sizes && !IsSmall(sizes[x])
      modifies this
      ensures Valid() && sizes == old(sizes) - {x}
    {
      hide IsMarked, Clear;
      hide Holds;
      hide Marked;
      hide Rooted;
      hide TreeOk;
      hide Wired;
      hide RemoveRoot;
      hide Lifted;
      hide ReplaceAt;
      hide Proper;
      ghost var j, m0 := TreeIndex(sizes[x]), mem;
      RootedAt(treemap, treebins, tree, j);
      ghost var t := tree[j];
      InItsBin(mem, small, tree, sizes, x);
      ghost var path := Locate(t, x);
      ghost var sub := At(t, path);
      ghost var k :| 0 <= k < |sub.ring| && sub.ring[k] == x;
      NodeOfChunk(mem, t, j, sizes, path, k);
      var xp := Get(mem, x).parent;
      var r := LeaveRing(x, t, path, j, k);
      if xp != Null {
        var i := Get(mem, x).index;
        Replace(x, xp, r, i, t, path, m0);
      } else {
        SameRootRest(m0, t, path, j, k);
      }
      Unlinked(m0, mem, small, tree, sizes, x, path, k);
      ghost var t' := ReplaceAt(t, path, RemoveRoot(sub, k));
      RootedReplaced(old(treemap), old(treebins), tree, j, t');
      assert treebins == old(treebins)[j := Root(t')];
      assert treemap == if t'.Nil? then Clear(old(treemap), j) else old(treemap);
      tree := tree[j := t'];
      sizes := sizes - {x};
    }
  }

  lemma SameRootRest(m: Memory, t: Trie, path: Path, i: nat, k: nat)
    requires ValidPath(t, path) && At(t, path).Node? && 0 < k < |At(t, path).ring|
    ensures var t' := ReplaceAt(t, path, RemoveRoot(At(t, path), k));
      Root(t') == Root(t) && t'.Node? && t.Node?
  {
    SameRoot(t, path, RemoveRoot(At(t, path), k));
    AtNode(t, path);
  }

  // The child links of a node's first chunk.
  lemma ChildLinks(m: Memory, t: Trie, up: Link, i: nat)
    requires t.Node? && Proper(t) && Wired(m, t, up, i)
    ensures var x := t.ring[0];
      && x > 0 && x == Root(t) && Get(m, x).left == Root(t.left) && Get(m, x).right == Root(t.right)
      && (Get(m, x).left == 0 <==> t.left.Nil?) && (Get(m, x).right == 0 <==> t.right.Nil?)
      && Proper(t.left) && Proper(t.right) && Wired(m, t.left, Chunk(x), i) && Wired(m, t.right, Chunk(x), i)
  {
    RootMember(t.left);
    RootMember(t.right);
    assert t.ring[0] in t.ring;
  }

  lemma NoLeaf(m: Memory, t: Trie, i: nat)
    requires t.Node? && |t.ring| == 1 && t.left.Nil? && t.right.Nil?
    ensures RemoveRoot(t, 0) == Nil && Lifted(m, t.ring[0], RemoveRoot(t, 0), i)
  {
  }

  lemma FirstOfList(m: Memory, list: seq<Addr>, i: nat, sizes: map<Addr, nat>)
    requires SmallOk(m, list, i, sizes) && list != []
    ensures Get(m, SmallBinAt(i)).fd == list[0] && Get(m, list[0]).bk == SmallBinAt(i)
  {
    var ring := [SmallBinAt(i)] + list;
    assert Joined(m, ring[0], ring[Next(0, |ring|)]);
  }

  lemma LinkOutCommutes(m: Memory, b: Addr, f: Addr)
    requires b != f
    ensures SetBk(SetFd(m, b, f), f, b) == LinkOut(m, b, f)
  {
    assert SetBk(SetFd(m, b, f), f, b) == m[b := Get(m, b).(fd := f)][f := Get(m, f).(bk := b)];
    assert LinkOut(m, b, f) == m[f := Get(m, f).(bk := b)][b := Get(m, b).(fd := f)];
  }

  lemma WayFacts(t: Trie, i: nat, x: Addr, size: nat, path: Path, sub: Trie, lo: nat, e: nat, k: nat)
    requires OnTheWay(t, i, x, size, path, sub, lo, e, k)
    ensures ValidPath(t, path) && At(t, path) == sub && sub.Node?
    ensures sub.size == size ==> Grown(t, i, x, size) == ReplaceAt(t, path, sub.(ring := WithSecond(sub.ring, x)))
    ensures Root(ReplaceAt(t, path, sub)) == Root(t)
  {
    ReplaceSelf(t, path);
  }

  lemma {:induction false} ReplaceSelf(t: Trie, path: Path)
    requires ValidPath(t, path)
    ensures ReplaceAt(t, path, At(t, path)) == t
  {
    if path != [] {
      ReplaceSelf(Child(t, path[0]), path[1..]);
    }
  }

  // The memory once the fields of a new tree chunk are set.
  function Started(m: Memory, x: Addr, i: nat): Memory {
    m[x := Get(m, x).(index := i, left := 0, right := 0)]
  }

  lemma HungBelow(m: Memory, m': Memory, small: seq<seq<Addr>>, tree: seq<Trie>, sizes: map<Addr, nat>,
                  i: nat, x: Addr, size: nat, path: Path, side: bool)
    requires Holds(m, small, tree, sizes) && x > 0 && x !in sizes && ChunkSize(size) && !IsSmall(size)
    requires i == TreeIndex(size) && InTree(tree[i], i, size) && ValidPath(tree[i], path) && At(tree[i], path).Node?
    requires Child(At(tree[i], path), side).Nil?
    requires var sub := At(tree[i], path);
      Grown(tree[i], i, x, size) == ReplaceAt(tree[i], path, WithChild(sub, side, Node([x], size, Nil, Nil)))
    requires var T := Root(At(tree[i], path));
      m' == SetBk(SetFd(SetParent(SetChild(Started(m, x, i), T, side, x), x, Chunk(T)), x, x), x, x)
    ensures Holds(m', small, tree[i := Grown(tree[i], i, x, size)], sizes[x := size])
    ensures Root(Grown(tree[i], i, x, size)) == Root(tree[i])
  {
    hide AllOkBut;
    hide Covered;
    var t, sub := tree[i], At(tree[i], path);
    TreeHeld(m, small, tree, sizes, i);
    WayWired(m, t, i, path, sizes);
    LeafIn(m, m', t, path, side, x, size, i);
    TreeInserted(m, m', small, tree, sizes, i, x, size, {x, Root(sub)});
    SameRoot(t, path, WithChild(sub, side, Node([x], size, Nil, Nil)));
  }

  lemma SameRoot(t: Trie, path: Path, u: Trie)
    requires ValidPath(t, path) && Root(u) == Root(At(t, path))
    ensures Root(ReplaceAt(t, path, u)) == Root(t)
  {
  }

  lemma HungIn(m: Memory, m': Memory, small: seq<seq<Addr>>, tree: seq<Trie>, sizes: map<Addr, nat>,
               i: nat, x: Addr, size: nat, path: Path)
    requires Holds(m, small, tree, sizes) && x > 0 && x !in sizes && ChunkSize(size) && !IsSmall(size)
    requires i == TreeIndex(size) && InTree(tree[i], i, size) && ValidPath(tree[i], path) && At(tree[i], path).Node?
    requires var sub := At(tree[i], path);
      && sub.ring != []
      && Grown(tree[i], i, x, size) == ReplaceAt(tree[i], path, sub.(ring := WithSecond(sub.ring, x)))
      && m' == SetParent(LinkIn(Started(m, x, i), sub.ring[0], Get(m, sub.ring[0]).fd, x), x, Null)
    ensures Holds(m', small, tree[i := Grown(tree[i], i, x, size)], sizes[x := size])
    ensures Root(Grown(tree[i], i, x, size)) == Root(tree[i])
  {
    hide AllOkBut;
    hide Covered;
    var t, sub := tree[i], At(tree[i], path);
    var T, f := sub.ring[0], Get(m, sub.ring[0]).fd;
    TreeHeld(m, small, tree, sizes, i);
    WayWired(m, t, i, path, sizes);
    RingMembers(sub);
    RingLinked(m, m', sub.ring, x, i);
    RingIn(m, m', t, path, x, i);
    TreeInserted(m, m', small, tree, sizes, i, x, size, {x, T, f});
    SameRoot(t, path, sub.(ring := WithSecond(sub.ring, x)));
  }

  lemma RingMembers(t: Trie)
    requires t.Node?
    ensures forall y :: y in t.ring ==> y in Members(t)
  {
  }

  // A started chunk in a ring.
  lemma RingLinked(m: Memory, m': Memory, ring: seq<Addr>, x: Addr, i: nat)
    requires ring != [] && Distinct(ring) && RingOk(m, ring) && x !in ring
    requires m' == SetParent(LinkIn(Started(m, x, i), ring[0], Get(m, ring[0]).fd, x), x, Null)
    ensures RingOk(m', WithSecond(ring, x)) && Spare(m', x) && Get(m', x).index == i
    ensures forall y :: y in ring ==> Get(m', y) == Get(m, y).(fd := Get(m', y).fd, bk := Get(m', y).bk)
    ensures SameBut(m, m', {x, ring[0], Get(m, ring[0]).fd}) && Get(m, ring[0]).fd in ring
  {
    var m1, f := Started(m, x, i), Get(m, ring[0]).fd;
    var m2 := LinkIn(m1, ring[0], f, x);
    RingKept(m, m1, ring);
    RingInsert(m1, ring, x);
    LinkedIn(m1, ring[0], f, x);
    hide LinkIn;
    RingKept(m2, m', WithSecond(ring, x));
  }

  // What the links of a chunk say about the node it belongs to.
  lemma NodeOfChunk(m: Memory, t: Trie, i: nat, sizes: map<Addr, nat>, path: Path, k: nat)
    requires TreeOk(m, t, i, sizes) && ValidPath(t, path) && At(t, path).Node? && k < |At(t, path).ring|
    ensures var sub, up := At(t, path), UpAt(t, path, Slot(i));
      var x := sub.ring[k];
      && Proper(t) && Wired(m, t, Slot(i), i) && Proper(sub) && Wired(m, sub, up, i) && Get(m, x).index == i
      && (Get(m, x).bk == x <==> |sub.ring| == 1)
      && (if k == 0 then Get(m, x).parent == up != Null else Get(m, x).parent == Null)
  {
    var sub := At(t, path);
    AtMembers(t, path);
    WiredAt(m, t, path, Slot(i), i);
    RingNeighbours(m, sub.ring, k);
    assert k > 0 ==> Spare(m, sub.ring[k]);
    if path != [] {
      UpAtInside(t, path, Slot(i));
    }
  }

  // A trie without one of its chunks.
  lemma ShrunkTree(m: Memory, m': Memory, t: Trie, i: nat, sizes: map<Addr, nat>, x: Addr, path: Path, k: nat)
    requires TreeOk(m, t, i, sizes) && ValidPath(t, path) && At(t, path).Node?
    requires k < |At(t, path).ring| && At(t, path).ring[k] == x
    requires Wired(m', ReplaceAt(t, path, RemoveRoot(At(t, path), k)), Slot(i), i)
    ensures var t' := ReplaceAt(t, path, RemoveRoot(At(t, path), k));
      TreeOk(m', t', i, sizes - {x}) && Members(t') == Members(t) - {x} && x in Members(t)
  {
    hide Wired;
    var sub := At(t, path);
    var t' := ReplaceAt(t, path, RemoveRoot(sub, k));
    AtMembers(t, path);
    RemoveRootProper(sub, k);
    ReplaceSmaller(t, path, RemoveRoot(sub, k));
    ShrunkRange(t, path, k, BinLo(i), BinBits(i));
    AtSized(t, path, sizes);
    RemoveRootSized(sub, k, sizes);
    ReplaceSized(t, path, RemoveRoot(sub, k), sizes);
    RingMembers(sub);
    assert Members(t') == Members(t) - {x};
    SizedKept(t', sizes, sizes - {x});
  }

  lemma ShrunkRange(t: Trie, path: Path, k: nat, lo: nat, e: nat)
    requires ValidPath(t, path) && At(t, path).Node? && k < |At(t, path).ring| && InRange(t, lo, e)
    ensures InRange(ReplaceAt(t, path, RemoveRoot(At(t, path), k)), lo, e)
  {
    var sub := At(t, path);
    forall lo', e' | InRange(sub, lo', e') ensures InRange(RemoveRoot(sub, k), lo', e') {
      RemoveRootRange(sub, k, lo', e');
    }
    ReplaceRange(t, path, RemoveRoot(sub, k), lo, e);
  }

  // A bin without one of its chunks.
  lemma Unlinked(m: Memory, m': Memory, small: seq<seq<Addr>>, tree: seq<Trie>, sizes: map<Addr, nat>,
                 x: Addr, path: Path, k: nat)
    requires Holds(m, small, tree, sizes) && x in sizes && !IsSmall(sizes[x])
    requires var t := tree[TreeIndex(sizes[x])];
      && ValidPath(t, path) && At(t, path).Node? && k < |At(t, path).ring| && At(t, path).ring[k] == x
      && Wired(m', ReplaceAt(t, path, RemoveRoot(At(t, path), k)), Slot(TreeIndex(sizes[x])), TreeIndex(sizes[x]))
      && SameBut(m, m', Members(t))
    ensures var i := TreeIndex(sizes[x]);
      Holds(m', small, tree[i := ReplaceAt(tree[i], path, RemoveRoot(At(tree[i], path), k))], sizes - {x})
  {
    hide Wired;
    hide RemoveRoot;
    hide ReplaceAt;
    hide InRange;
    hide Sized;
    var i := TreeIndex(sizes[x]);
    var t := tree[i];
    var t' := ReplaceAt(t, path, RemoveRoot(At(t, path), k));
    TreeHeld(m, small, tree, sizes, i);
    ShrunkTree(m, m', t, i, sizes, x, path, k);
    forall y | y in sizes && BinOf(sizes[y]) == NSMALLBINS + i ensures y in Members(t) {
      InItsBin(m, small, tree, sizes, y);
    }
    MembersPositive(t);
    TreeReplaced(m, m', Members(t), small, tree, sizes, sizes - {x}, i, t');
  }

  // Where the first chunk of a node is linked from.
  lemma PlaceOfHead(m0: Memory, m: Memory, t: Trie, path: Path, i: nat)
    requires Proper(t) && Wired(m0, t, Slot(i), i) && ValidPath(t, path) && At(t, path).Node?
    requires At(t, path).ring != [] && SameBut(m0, m, Members(At(t, path)))
    ensures var x, xp, t' := At(t, path).ring[0], UpAt(t, path, Slot(i)),
      ReplaceAt(t, path, RemoveRoot(At(t, path), 0));
      && (x == Root(t) <==> path == [])
      && (path == [] ==> t' == RemoveRoot(At(t, path), 0))
      && (path != [] ==>
            && xp.Chunk? && xp.at != x &&
              ChildOf(m, xp.at, path[|path| - 1]) == x != ChildOf(m, xp.at, !path[|path| - 1])
            && Root(t') == Root(t) && t'.Node?)
      && (Root(RemoveRoot(At(t, path), 0)) == 0 <==> RemoveRoot(At(t, path), 0).Nil?)
  {
    var sub := At(t, path);
    AtMembers(t, path);
    RemoveRootProper(sub, 0);
    RootMember(RemoveRoot(sub, 0));
    RingMembers(sub);
    if path != [] {
      UpAtInside(t, path, Slot(i));
      WiredAbove(m0, t, path, Slot(i), i);
      AtMembers(Child(t, path[0]), path[1..]);
    }
  }
}
