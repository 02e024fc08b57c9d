/** What insert_large_chunk and unlink_large_chunk do to the links of a tree bin. */
module AllocTrieLinks {
  import opened AllocLinks
  import opened AllocTrie

  // --------------------------------------------------------------------- new nodes

  // A chunk on its own, as the place of an empty subtree is filled.
  lemma WiredLeaf(m: Memory, x: Addr, s: nat, up: Link, i: nat)
    requires Get(m, x) == Fields(x, x, 0, 0, up, i)
    ensures Wired(m, Node([x], s, Nil, Nil), up, i)
  {
    RingSingle(m, x);
    assert Wired(m, Nil, Chunk(x), i);
  }

  // Only the ring of a node changed, behind its first chunk.
  lemma WiredRing(m: Memory, m': Memory, t: Trie, ring: seq<Addr>, up: Link, i: nat)
    requires t.Node? && Wired(m, t, up, i) && Proper(t) && ring != [] && ring[0] == t.ring[0] && RingOk(m', ring)
    requires Get(m', ring[0]) == Get(m, ring[0]).(fd := Get(m', ring[0]).fd, bk := Get(m', ring[0]).bk)
    requires forall k :: 0 < k < |ring| ==> Spare(m', ring[k]) && Get(m', ring[k]).index == i
    requires forall x :: x in Members(t.left) || x in Members(t.right) ==> Get(m', x) == Get(m, x)
    ensures Wired(m', t.(ring := ring), up, i)
  {
    WiredKept(m, m', t.left, Chunk(t.ring[0]), i);
    WiredKept(m, m', t.right, Chunk(t.ring[0]), i);
    assert Get(m, t.ring[0]).index == i;
  }

  lemma {:induction false} StepDown(t: Trie, path: Path, side: bool)
    requires ValidPath(t, path) && At(t, path).Node?
    ensures ValidPath(t, path + [side]) && At(t, path + [side]) == Child(At(t, path), side)
    ensures forall u :: ReplaceAt(t, path + [side], u) == ReplaceAt(t, path, WithChild(At(t, path), side, u))
  {
    if path == [] {
      assert [side][1..] == [];
    } else {
      StepDown(Child(t, path[0]), path[1..], side);
      assert (path + [side])[0] == path[0] && (path + [side])[1..] == path[1..] + [side];
    }
  }

  // A chunk of a new size is hung below the subtree at `path`, where there was nothing.
  lemma LeafIn(m: Memory, m': Memory, t: Trie, path: Path, side: bool, x: Addr, s: nat, i: nat)
    requires Proper(t) && Wired(m, t, Slot(i), i) && ValidPath(t, path) && At(t, path).Node?
    requires Child(At(t, path), side).Nil? && x > 0 && x !in Members(t)
    requires var p := Root(At(t, path));
      && Get(m', x) == Fields(x, x, 0, 0, Chunk(p), i)
      && Get(m', p) == (if side then Get(m, p).(right := x) else Get(m, p).(left := x))
      && SameBut(m, m', {x, p})
    ensures Wired(m', ReplaceAt(t, path, WithChild(At(t, path), side, Node([x], s, Nil, Nil))), Slot(i), i)
  {
    var path', u := path + [side], Node([x], s, Nil, Nil);
    StepDown(t, path, side);
    UpAtLast(t, path', Slot(i));
    assert path'[..|path'| - 1] == path;
    WiredLeaf(m', x, s, UpAt(t, path', Slot(i)), i);
    WiredReplace(m, m', t, path', u, Slot(i), i);
  }

  // A chunk of the same size is put into the ring of the node at `path`.
  lemma RingIn(m: Memory, m': Memory, t: Trie, path: Path, x: Addr, i: nat)
    requires Proper(t) && Wired(m, t, Slot(i), i) && ValidPath(t, path) && At(t, path).Node?
    requires At(t, path).ring != [] && x > 0 && x !in Members(t)
    requires var ring := At(t, path).ring;
      && RingOk(m', WithSecond(ring, x)) && Spare(m', x) && Get(m', x).index == i
      && (forall y :: y in ring ==> Get(m', y) == Get(m, y).(fd := Get(m', y).fd, bk := Get(m', y).bk))
      && (forall y :: y in Members(t) && y !in ring ==> Get(m', y) == Get(m, y))
    ensures Wired(m', ReplaceAt(t, path, At(t, path).(ring := WithSecond(At(t, path).ring, x))), Slot(i), i)
  {
    var sub := At(t, path);
    var ring := WithSecond(sub.ring, x);
    AtMembers(t, path);
    WiredAt(m, t, path, Slot(i), i);
    forall k | 0 < k < |ring| ensures Spare(m', ring[k]) && Get(m', ring[k]).index == i {
      if k > 1 {
        assert ring[k] == sub.ring[k - 1] && Spare(m, sub.ring[k - 1]);
        assert ring[k] in sub.ring;
      }
    }
    assert sub.ring[0] in sub.ring;
    WiredRing(m, m', sub, ring, UpAt(t, path, Slot(i)), i);
    if path != [] {
      UpAtInside(t, path, Slot(i));
      WiredAbove(m, t, path, Slot(i), i);
    }
    WiredReplace(m, m', t, path, sub.(ring := ring), Slot(i), i);
  }

  // --------------------------------------------------------------- taking out a leaf

  // A child slot: of which chunk, and on which side.
  datatype Place = Place(at: Addr, side: bool)

  // The slot that leads to the leaf that TakeLeaf takes; `from` leads to t itself.
  ghost function LeafSlot(t: Trie, from: Place): Place
    requires t.Node?
  {
    if t.right.Node? then LeafSlot(t.right, Place(Root(t), true))
    else if t.left.Node? then LeafSlot(t.left, Place(Root(t), false))
    else from
  }

  lemma {:induction false} LeafSlotInside(t: Trie, from: Place)
    requires t.Node? && Proper(t) && (t.left.Node? || t.right.Node?)
    ensures LeafSlot(t, from).at in Members(TakeLeaf(t).1)
  {
    if t.right.Node? {
      if t.right.left.Node? || t.right.right.Node? {
        LeafSlotInside(t.right, Place(Root(t), true));
      }
    } else if t.left.left.Node? || t.left.right.Node? {
      LeafSlotInside(t.left, Place(Root(t), false));
    }
  }

  // Clearing that slot leaves the tree without the leaf.
  lemma {:induction false} WiredTakeLeaf(m: Memory, t: Trie, from: Place, up: Link, i: nat)
    requires t.Node? && Proper(t) && (t.left.Node? || t.right.Node?) && Wired(m, t, up, i)
    ensures var slot := LeafSlot(t, from);
      Wired(SetChild(m, slot.at, slot.side, 0), TakeLeaf(t).1, up, i)
  {
    var slot := LeafSlot(t, from);
    var m', side := SetChild(m, slot.at, slot.side, 0), t.right.Node?;
    var c, head := Child(t, side), t.ring[0];
    LeafSlotInside(t, from);
    TakeLeafMembers(c);
    if c.left.Node? || c.right.Node? {
      LeafSlotInside(c, Place(head, side));
      WiredTakeLeaf(m, c, Place(head, side), Chunk(head), i);
      assert slot == LeafSlot(c, Place(head, side)) && slot.at in Members(c);
      assert Root(TakeLeaf(c).1) == Root(c);
    } else {
      assert slot == Place(head, side);
    }
    assert slot.at !in Members(Child(t, !side));
    WiredKept(m, m', Child(t, !side), Chunk(head), i);
    NodeRewired(m, m', t, side, TakeLeaf(c).1, up, i);
  }

  // A ring whose chunks have no links into a tree; the parent link of the first does not matter.
  ghost predicate Detached(m: Memory, ring: seq<Addr>, i: nat) {
    && ring != [] && RingOk(m, ring)
    && Get(m, ring[0]).left == 0 && Get(m, ring[0]).right == 0
    && (forall k :: 0 < k < |ring| ==> Spare(m, ring[k]))
    && (forall k :: 0 <= k < |ring| ==> Get(m, ring[k]).index == i)
  }

  lemma {:induction false} LeafDetached(m: Memory, t: Trie, up: Link, i: nat)
    requires t.Node? && Wired(m, t, up, i)
    ensures Detached(m, TakeLeaf(t).0.ring, i)
  {
    if t.right.Node? {
      LeafDetached(m, t.right, Chunk(t.ring[0]), i);
    } else if t.left.Node? {
      LeafDetached(m, t.left, Chunk(t.ring[0]), i);
    }
  }

  // ---------------------------------------------------------------------- new heads

  // if (c != 0) { r->child[side] = c; c->parent = r; }
  function Adopt(m: Memory, r: Addr, side: bool, c: Addr): Memory {
    if c == 0 then m else SetParent(SetChild(m, r, side, c), c, Chunk(r))
  }

  // A tree under another parent.
  lemma WiredReparent(m: Memory, m': Memory, t: Trie, up: Link, up': Link, i: nat)
    requires Proper(t) && Wired(m, t, up, i)
    requires t.Node? ==> Get(m', Root(t)) == Get(m, Root(t)).(parent := up')
    requires forall x :: x in Members(t) && x != Root(t) ==> Get(m', x) == Get(m, x)
    ensures Wired(m', t, up', i)
  {
    if t.Node? {
      assert forall k :: 0 < k < |t.ring| ==> t.ring[k] in Members(t) && t.ring[k] != t.ring[0];
      RingKept(m, m', t.ring);
      WiredKept(m, m', t.left, Chunk(t.ring[0]), i);
      WiredKept(m, m', t.right, Chunk(t.ring[0]), i);
    }
  }

  // A ring takes the place of the first chunk x of a node: it gets the parent and both children of x.
  lemma WiredRehead(m: Memory, x: Addr, t: Trie, up: Link, i: nat)
    requires t.Node? && Proper(t) && Detached(m, t.ring, i)
    requires Wired(m, t.left, Chunk(x), i) && Wired(m, t.right, Chunk(x), i)
    ensures var r := t.ring[0];
      Wired(Adopt(Adopt(SetParent(m, r, up), r, false, Root(t.left)), r, true, Root(t.right)), t, up, i)
  {
    var r, cl, cr := t.ring[0], Root(t.left), Root(t.right);
    var m' := Adopt(Adopt(SetParent(m, r, up), r, false, cl), r, true, cr);
    RootMember(t.left);
    RootMember(t.right);
    assert r in t.ring;
    AdoptedBoth(m, r, up, cl, cr);
    WiredReparent(m, m', t.left, Chunk(x), Chunk(r), i);
    WiredReparent(m, m', t.right, Chunk(x), Chunk(r), i);
    assert forall k :: 0 < k < |t.ring| ==> t.ring[k] != r && t.ring[k] in t.ring;
    RingKept(m, m', t.ring);
  }

  lemma RootMember(t: Trie)
    requires Proper(t)
    ensures t.Node? ==> Root(t) in Members(t) && Root(t) > 0
    ensures Root(t) == 0 <==> t.Nil?
  {
    if t.Node? {
      assert t.ring[0] in t.ring;
    }
  }

  lemma AdoptedBoth(m: Memory, r: Addr, up: Link, cl: Addr, cr: Addr)
    requires r != cl && r != cr && (cl != cr || cl == 0)
    requires Get(m, r).left == 0 && Get(m, r).right == 0
    ensures var m' := Adopt(Adopt(SetParent(m, r, up), r, false, cl), r, true, cr);
      && Get(m', r) == Get(m, r).(parent := up, left := cl, right := cr)
      && (cl != 0 ==> Get(m', cl) == Get(m, cl).(parent := Chunk(r)))
      && (cr != 0 ==> Get(m', cr) == Get(m, cr).(parent := Chunk(r)))
      && (forall x :: x != r && (x != cl || cl == 0) && (x != cr || cr == 0) ==> Get(m', x) == Get(m, x))
  {
  }

  // ------------------------------------------------------- the first chunk of a ring goes

  // What is left of the node of x hangs together, but for the links up and down of its new first chunk.
  ghost predicate Lifted(m: Memory, x: Addr, t: Trie, i: nat) {
    t.Node? ==>
      && Detached(m, t.ring, i) && Wired(m, t.left, Chunk(x), i) && Wired(m, t.right, Chunk(x), i)
      && Get(m, x).left == Root(t.left) && Get(m, x).right == Root(t.right)
  }

  // Another chunk of the same size remains.
  lemma RingHeadOut(m: Memory, t: Trie, up: Link, i: nat)
    requires t.Node? && Proper(t) && Wired(m, t, up, i) && |t.ring| > 1
    ensures var x := t.ring[0];
      var b, f := Get(m, x).bk, Get(m, x).fd;
      && Lifted(LinkOut(m, b, f), x, RemoveRoot(t, 0), i) && b == Root(RemoveRoot(t, 0)) != x
      && b in Members(t) && f in Members(t)
  {
    var x, ring' := t.ring[0], WithoutAt(t.ring, 0);
    var b, f := Get(m, x).bk, Get(m, x).fd;
    RingRemove(m, t.ring, 0);
    LinkedOut(m, b, f);
    var m' := LinkOut(m, b, f);
    forall k | 0 <= k < |ring'| ensures Spare(m', ring'[k]) && Get(m', ring'[k]).index == i {
      OldChunk(t.ring, 0, k);
      assert Spare(m, t.ring[OldIndex(|t.ring|, 0, k)]);
    }
    WiredKept(m, m', t.left, Chunk(x), i);
    WiredKept(m, m', t.right, Chunk(x), i);
  }

  // The ring is empty, and the ring of a leaf takes its place.
  lemma LeafOut(m: Memory, t: Trie, from: Place, up: Link, i: nat)
    requires t.Node? && Proper(t) && Wired(m, t, up, i) && |t.ring| == 1 && (t.left.Node? || t.right.Node?)
    ensures var slot, x := LeafSlot(t, from), t.ring[0];
      && Lifted(SetChild(m, slot.at, slot.side, 0), x, RemoveRoot(t, 0), i)
      && slot.at in Members(t) && Root(TakeLeaf(t).0) == Root(RemoveRoot(t, 0))
  {
    var slot := LeafSlot(t, from);
    var m', leaf, rest := SetChild(m, slot.at, slot.side, 0), TakeLeaf(t).0, TakeLeaf(t).1;
    TakeLeafMembers(t);
    LeafSlotInside(t, from);
    WiredTakeLeaf(m, t, from, up, i);
    LeafDetached(m, t, up, i);
    assert slot.at !in leaf.ring;
    DetachedKept(m, m', leaf.ring, i);
    assert rest.ring == t.ring;
  }

  lemma DetachedKept(m: Memory, m': Memory, ring: seq<Addr>, i: nat)
    requires Detached(m, ring, i) && forall x :: x in ring ==> Get(m', x) == Get(m, x)
    ensures Detached(m', ring, i)
  {
    RingKept(m, m', ring);
    forall k | 0 < k < |ring| ensures Spare(m', ring[k]) {
      assert Spare(m, ring[k]) && ring[k] in ring;
    }
  }

  // R->parent = XP, and both children of X move to R.
  function Crowned(m: Memory, x: Addr, xp: Link, r: Addr): Memory {
    if r == 0 then m else Adopt(Adopt(SetParent(m, r, xp), r, false, Get(m, x).left), r, true, Get(m, x).right)
  }

  // The link down to x now leads to r.
  function Redirected(m: Memory, xp: Link, side: bool, r: Addr): Memory
    requires xp.Chunk?
  {
    SetChild(m, xp.at, side, r)
  }

  lemma CrownedWired(m: Memory, x: Addr, t: Trie, up: Link, i: nat)
    requires Proper(t) && Lifted(m, x, t, i)
    ensures Wired(Crowned(m, x, up, Root(t)), t, up, i)
  {
    RootMember(t);
    if t.Node? {
      WiredRehead(m, x, t, up, i);
    }
  }

  lemma CrownedSame(m: Memory, x: Addr, t: Trie, up: Link, i: nat)
    requires Proper(t) && Lifted(m, x, t, i)
    ensures SameBut(m, Crowned(m, x, up, Root(t)), Members(t))
  {
    RootMember(t);
    if t.Node? {
      RootMember(t.left);
      RootMember(t.right);
      assert t.ring[0] in t.ring;
      AdoptedBoth(m, t.ring[0], up, Root(t.left), Root(t.right));
    }
  }

  lemma LiftedKept(m: Memory, m': Memory, x: Addr, t: Trie, i: nat)
    requires Lifted(m, x, t, i) && Get(m', x) == Get(m, x)
    requires forall y :: y in Members(t) ==> Get(m', y) == Get(m, y)
    ensures Lifted(m', x, t, i)
  {
    if t.Node? {
      DetachedKept(m, m', t.ring, i);
      WiredKept(m, m', t.left, Chunk(x), i);
      WiredKept(m, m', t.right, Chunk(x), i);
    }
  }

  // The tree after its node at `path` lost the first chunk of its ring; m1 is the memory after the new
  // first chunk was found and cut off from where it was.
  lemma HeadReplaced(m: Memory, m1: Memory, t: Trie, path: Path, i: nat)
    requires Proper(t) && Wired(m, t, Slot(i), i) && ValidPath(t, path) && At(t, path).Node?
    requires SameBut(m, m1, Members(At(t, path)))
    requires At(t, path).ring != [] && Lifted(m1, At(t, path).ring[0], RemoveRoot(At(t, path), 0), i)
    ensures var sub := At(t, path);
      var sub', xp := RemoveRoot(sub, 0), UpAt(t, path, Slot(i));
      var m2 := if path == [] then m1 else Redirected(m1, xp, path[|path| - 1], Root(sub'));
      var m3 := Crowned(m2, sub.ring[0], xp, Root(sub'));
      Wired(m3, ReplaceAt(t, path, sub'), Slot(i), i) && SameBut(m, m3, Members(t))
  {
    hide Proper;
    hide RemoveRoot;
    hide Wired;
    var sub := At(t, path);
    var x, sub', xp := sub.ring[0], RemoveRoot(sub, 0), UpAt(t, path, Slot(i));
    var m2 := if path == [] then m1 else Redirected(m1, xp, path[|path| - 1], Root(sub'));
    var m3 := Crowned(m2, x, xp, Root(sub'));
    AtMembers(t, path);
    RemoveRootProper(sub, 0);
    assert x in Members(sub);
    if path != [] {
      UpAtInside(t, path, Slot(i));
    }
    LiftedKept(m1, m2, x, sub', i);
    CrownedWired(m2, x, sub', xp, i);
    CrownedSame(m2, x, sub', xp, i);
    WiredReplace(m, m3, t, path, sub', Slot(i), i);
  }

  // A chunk of a ring other than the first just leaves the ring.
  lemma RingRestOut(m: Memory, t: Trie, path: Path, i: nat, k: nat)
    requires Proper(t) && Wired(m, t, Slot(i), i) && ValidPath(t, path) && At(t, path).Node?
    requires 0 < k < |At(t, path).ring|
    ensures var sub := At(t, path);
      var m' := LinkOut(m, Get(m, sub.ring[k]).bk, Get(m, sub.ring[k]).fd);
      Wired(m', ReplaceAt(t, path, RemoveRoot(sub, k)), Slot(i), i) && SameBut(m, m', Members(t))
  {
    var sub := At(t, path);
    var x, ring' := sub.ring[k], WithoutAt(sub.ring, k);
    var b, f := Get(m, x).bk, Get(m, x).fd;
    var m' := LinkOut(m, b, f);
    AtMembers(t, path);
    WiredAt(m, t, path, Slot(i), i);
    RingRemove(m, sub.ring, k);
    LinkedOut(m, b, f);
    assert b in Members(sub) && f in Members(sub);
    forall j | 0 < j < |ring'| ensures Spare(m', ring'[j]) && Get(m', ring'[j]).index == i {
      OldChunk(sub.ring, k, j);
      assert Spare(m, sub.ring[OldIndex(|sub.ring|, k, j)]);
    }
    WiredRing(m, m', sub, ring', UpAt(t, path, Slot(i)), i);
    if path != [] {
      UpAtInside(t, path, Slot(i));
      WiredAbove(m, t, path, Slot(i), i);
    }
    WiredReplace(m, m', t, path, RemoveRoot(sub, k), Slot(i), i);
  }

  // The parent of a subtree links down to it on the side of the last step, and not on the other.
  lemma {:induction false} WiredAbove(m: Memory, t: Trie, path: Path, up: Link, i: nat)
    requires Proper(t) && Wired(m, t, up, i) && ValidPath(t, path) && path != [] && At(t, path).Node?
    ensures var p, side := UpAt(t, path, up).at, path[|path| - 1];
      ChildOf(m, p, side) == Root(At(t, path)) != ChildOf(m, p, !side)
  {
    var front, side := path[..|path| - 1], path[|path| - 1];
    UpAtLast(t, path, up);
    AtMembers(t, front);
    WiredAt(m, t, front, up, i);
    var above := At(t, front);
    RootMember(above.left);
    RootMember(above.right);
  }
}
