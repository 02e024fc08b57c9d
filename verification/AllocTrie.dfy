/**
 The contents of a tree bin: a bitwise trie over chunk sizes. Every node holds one size; chunks of
 the same size form a ring, whose first chunk is the one linked into the tree.
 */
module AllocTrie {
  import opened Powers
  import opened AllocLinks

  datatype Trie = Nil | Node(ring: seq<Addr>, size: nat, left: Trie, right: Trie)

  type Path = seq<bool>

  function Root(t: Trie): Addr {
    if t.Node? && t.ring != [] then t.ring[0] else 0
  }

  function Child(t: Trie, side: bool): Trie
    requires t.Node?
  {
    if side then t.right else t.left
  }

  function WithChild(t: Trie, side: bool, u: Trie): Trie
    requires t.Node?
  {
    if side then t.(right := u) else t.(left := u)
  }

  predicate ValidPath(t: Trie, path: Path) {
    path == [] || (t.Node? && ValidPath(Child(t, path[0]), path[1..]))
  }

  function At(t: Trie, path: Path): Trie
    requires ValidPath(t, path)
  {
    if path == [] then t else At(Child(t, path[0]), path[1..])
  }

  function ReplaceAt(t: Trie, path: Path, u: Trie): Trie
    requires ValidPath(t, path)
  {
    if path == [] then u else WithChild(t, path[0], ReplaceAt(Child(t, path[0]), path[1..], u))
  }

  ghost function Members(t: Trie): set<Addr> {
    if t.Nil? then {} else (set x | x in t.ring) + Members(t.left) + Members(t.right)
  }

  ghost function Sizes(t: Trie): set<nat> {
    if t.Nil? then {} else {t.size} + Sizes(t.left) + Sizes(t.right)
  }

  // Each chunk is there once, each size has one node.
  ghost predicate Proper(t: Trie) {
    t.Node? ==>
      && t.ring != [] && Distinct(t.ring) && (forall x :: x in t.ring ==> x > 0)
      && (forall x :: x in t.ring ==> x !in Members(t.left) && x !in Members(t.right))
      && Members(t.left) !! Members(t.right)
      && t.size !in Sizes(t.left) && t.size !in Sizes(t.right) && Sizes(t.left) !! Sizes(t.right)
      && Proper(t.left) && Proper(t.right)
  }

  // The chunks have the sizes of their nodes.
  ghost predicate Sized(t: Trie, sizes: map<Addr, nat>) {
    t.Node? ==>
      && (forall x :: x in t.ring ==> x in sizes && sizes[x] == t.size)
      && Sized(t.left, sizes) && Sized(t.right, sizes)
  }

  // All sizes are in the 2^e from lo on; the left subtree has the lower half of them.
  ghost predicate InRange(t: Trie, lo: nat, e: nat) {
    t.Node? ==>
      && lo <= t.size < lo + Pow2(e)
      && if e == 0 then t.left.Nil? && t.right.Nil?
         else InRange(t.left, lo, e - 1) && InRange(t.right, lo + Pow2(e - 1), e - 1)
  }

  lemma {:induction false} SizesInRange(t: Trie, lo: nat, e: nat, s: nat)
    requires InRange(t, lo, e) && s in Sizes(t)
    ensures lo <= s < lo + Pow2(e)
  {
    if s != t.size {
      if s in Sizes(t.left) {
        SizesInRange(t.left, lo, e - 1, s);
      } else {
        SizesInRange(t.right, lo + Pow2(e - 1), e - 1, s);
      }
    }
  }

  lemma {:induction false} MemberSize(t: Trie, sizes: map<Addr, nat>, x: Addr)
    requires Sized(t, sizes) && x in Members(t)
    ensures x in sizes && sizes[x] in Sizes(t)
  {
    if x !in t.ring {
      if x in Members(t.left) {
        MemberSize(t.left, sizes, x);
      } else {
        MemberSize(t.right, sizes, x);
      }
    }
  }

  // -------------------------------------------------------------------- insertion

  ghost function Insert(t: Trie, lo: nat, e: nat, x: Addr, s: nat): Trie
    requires InRange(t, lo, e) && lo <= s < lo + Pow2(e) && Proper(t)
    decreases t
  {
    if t.Nil? then Node([x], s, Nil, Nil)
    else if t.size == s then t.(ring := WithSecond(t.ring, x))
    else if s < lo + Pow2(e - 1) then t.(left := Insert(t.left, lo, e - 1, x, s))
    else t.(right := Insert(t.right, lo + Pow2(e - 1), e - 1, x, s))
  }

  lemma {:induction false} InsertMembers(t: Trie, lo: nat, e: nat, x: Addr, s: nat)
    requires InRange(t, lo, e) && lo <= s < lo + Pow2(e) && Proper(t)
    ensures Members(Insert(t, lo, e, x, s)) == Members(t) + {x}
    ensures Sizes(Insert(t, lo, e, x, s)) == Sizes(t) + {s}
    decreases t
  {
    if t.Node? && t.size != s {
      if s < lo + Pow2(e - 1) {
        InsertMembers(t.left, lo, e - 1, x, s);
      } else {
        InsertMembers(t.right, lo + Pow2(e - 1), e - 1, x, s);
      }
    } else if t.Node? {
      assert forall y :: y in WithSecond(t.ring, x) <==> y in t.ring || y == x;
    }
  }

  lemma {:induction false} InsertRange(t: Trie, lo: nat, e: nat, x: Addr, s: nat)
    requires InRange(t, lo, e) && lo <= s < lo + Pow2(e) && Proper(t)
    ensures InRange(Insert(t, lo, e, x, s), lo, e)
    decreases t
  {
    if t.Node? && t.size != s {
      if s < lo + Pow2(e - 1) {
        InsertRange(t.left, lo, e - 1, x, s);
      } else {
        InsertRange(t.right, lo + Pow2(e - 1), e - 1, x, s);
      }
    }
  }

  lemma WithChildProper(t: Trie, side: bool, c: Trie)
    requires t.Node? && Proper(t) && Proper(c)
    requires Members(c) !! Members(Child(t, !side)) && forall x :: x in t.ring ==> x !in Members(c)
    requires Sizes(c) !! Sizes(Child(t, !side)) && t.size !in Sizes(c)
    ensures Proper(WithChild(t, side, c))
  {
  }

  lemma WithChildGrown(t: Trie, side: bool, c: Trie, x: Addr, s: nat)
    requires t.Node? && Proper(t) && Proper(c) && x !in Members(t) && s != t.size && s !in Sizes(Child(t, !side))
    requires Members(c) == Members(Child(t, side)) + {x} && Sizes(c) == Sizes(Child(t, side)) + {s}
    ensures Proper(WithChild(t, side, c))
  {
    WithChildProper(t, side, c);
  }

  lemma WithChildShrunk(t: Trie, side: bool, c: Trie)
    requires t.Node? && Proper(t) && Proper(c)
    requires Members(c) <= Members(Child(t, side)) && Sizes(c) <= Sizes(Child(t, side))
    ensures Proper(WithChild(t, side, c)) && Sizes(WithChild(t, side, c)) <= Sizes(t)
    ensures Members(WithChild(t, side, c)) == Members(t) - (Members(Child(t, side)) - Members(c))
  {
    WithChildProper(t, side, c);
  }

  lemma ChildParts(t: Trie, side: bool)
    requires t.Node? && Proper(t)
    ensures var c := Child(t, side);
      Proper(c) && Members(c) <= Members(t) && Sizes(c) <= Sizes(t)
  {
  }

  // A size other than the node's own belongs to one of the halves, and not to the other.
  lemma ChildRange(t: Trie, lo: nat, e: nat, s: nat, side: bool)
    requires t.Node? && InRange(t, lo, e) && lo <= s < lo + Pow2(e) && s != t.size
    requires e > 0 ==> (side <==> s >= lo + Pow2(e - 1))
    ensures e > 0
    ensures var lo' := HalfLo(lo, e, side);
      && lo' <= s < lo' + Pow2(e - 1) && InRange(Child(t, side), lo', e - 1)
      && s !in Sizes(Child(t, !side))
  {
    if s in Sizes(Child(t, !side)) {
      SizesInRange(Child(t, !side), HalfLo(lo, e, !side), e - 1, s);
    }
  }

  function HalfLo(lo: nat, e: nat, side: bool): nat
    requires e > 0
  {
    if side then lo + Pow2(e - 1) else lo
  }

  lemma {:induction false} InsertProper(t: Trie, lo: nat, e: nat, x: Addr, s: nat)
    requires InRange(t, lo, e) && lo <= s < lo + Pow2(e) && Proper(t) && x > 0 && x !in Members(t)
    ensures Proper(Insert(t, lo, e, x, s))
    decreases t
  {
    if t.Node? && t.size != s {
      var side := e > 0 && s >= lo + Pow2(e - 1);
      ChildRange(t, lo, e, s, side);
      ChildParts(t, side);
      InsertProperBelow(t, lo, e, x, s, side, HalfLo(lo, e, side));
    } else if t.Node? {
      WithRingProper(t, x);
    }
  }

  lemma {:induction false} InsertProperBelow(t: Trie, lo: nat, e: nat, x: Addr, s: nat, side: bool, lo': nat)
    requires t.Node? && InRange(t, lo, e) && lo <= s < lo + Pow2(e) && Proper(t) && x > 0 && x !in Members(t)
    requires t.size != s && e > 0 && (side <==> s >= lo + Pow2(e - 1)) && lo' == HalfLo(lo, e, side)
    requires lo' <= s < lo' + Pow2(e - 1) && InRange(Child(t, side), lo', e - 1)
    requires s !in Sizes(Child(t, !side)) && x !in Members(Child(t, side)) && Proper(Child(t, side))
    ensures Proper(Insert(t, lo, e, x, s))
    decreases t, 0
  {
    hide Pow2;
    hide Sizes;
    hide Members;
    hide InRange;
    hide Proper;
    var c := Child(t, side);
    InsertProper(c, lo', e - 1, x, s);
    InsertMembers(c, lo', e - 1, x, s);
    WithChildGrown(t, side, Insert(c, lo', e - 1, x, s), x, s);
  }

  lemma WithRingProper(t: Trie, x: Addr)
    requires t.Node? && Proper(t) && x > 0 && x !in Members(t)
    ensures Proper(t.(ring := WithSecond(t.ring, x)))
  {
    assert forall y :: y in WithSecond(t.ring, x) <==> y in t.ring || y == x;
    assert Distinct(WithSecond(t.ring, x));
  }

  lemma {:induction false} InsertSized(t: Trie, lo: nat, e: nat, x: Addr, s: nat, sizes: map<Addr, nat>)
    requires InRange(t, lo, e) && lo <= s < lo + Pow2(e) && Proper(t) && Sized(t, sizes) && x !in Members(t)
    ensures Sized(Insert(t, lo, e, x, s), sizes[x := s])
    decreases t
  {
    if t.Node? {
      SizedKept(t, sizes, sizes[x := s]);
      if t.size == s {
        var t' := t.(ring := WithSecond(t.ring, x));
        assert forall y :: y in t'.ring ==> y in t.ring || y == x;
      } else {
        var side := s >= lo + Pow2(e - 1);
        InsertSized(Child(t, side), if side then lo + Pow2(e - 1) else lo, e - 1, x, s, sizes);
      }
    } else {
      SizedLeaf(x, s, sizes);
    }
  }

  lemma SizedLeaf(x: Addr, s: nat, sizes: map<Addr, nat>)
    ensures Sized(Node([x], s, Nil, Nil), sizes[x := s])
  {
    var t, sizes' := Node([x], s, Nil, Nil), sizes[x := s];
    assert forall y :: y in t.ring ==> y in sizes' && sizes'[y] == t.size;
    assert Sized(t.left, sizes') && Sized(t.right, sizes');
  }

  lemma {:induction false} SizedKept(t: Trie, sizes: map<Addr, nat>, sizes': map<Addr, nat>)
    requires Sized(t, sizes) && forall x :: x in Members(t) && x in sizes ==> x in sizes' && sizes'[x] == sizes[x]
    ensures Sized(t, sizes')
  {
    if t.Node? {
      assert forall x :: x in t.ring ==> x in Members(t);
      SizedKept(t.left, sizes, sizes');
      SizedKept(t.right, sizes, sizes');
    }
  }

  // ---------------------------------------------------------------------- removal

  // The leaf reached by going right where there is a right child, else left, and what is left.
  ghost function TakeLeaf(t: Trie): (r: (Trie, Trie))
    requires t.Node?
    ensures r.0.Node? && (r.1.Nil? <==> t.left.Nil? && t.right.Nil?)
  {
    if t.right.Node? then
      var (leaf, rest) := TakeLeaf(t.right);
      (leaf, t.(right := rest))
    else if t.left.Node? then
      var (leaf, rest) := TakeLeaf(t.left);
      (leaf, t.(left := rest))
    else (t, Nil)
  }

  // The tree after its root ring lost the chunk at k. An emptied ring gives way to some leaf's ring.
  ghost function RemoveRoot(t: Trie, k: nat): Trie
    requires t.Node? && k < |t.ring|
  {
    if |t.ring| > 1 then t.(ring := WithoutAt(t.ring, k))
    else if t.left.Nil? && t.right.Nil? then Nil
    else
      var (leaf, rest) := TakeLeaf(t);
      Node(leaf.ring, leaf.size, rest.left, rest.right)
  }

  lemma {:induction false} TakeLeafMembers(t: Trie)
    requires t.Node? && Proper(t)
    ensures var (leaf, rest) := TakeLeaf(t);
      && Proper(leaf) && Proper(rest) && leaf.left.Nil? && leaf.right.Nil?
      && Members(t) == Members(rest) + (set x | x in leaf.ring) && (forall x :: x in leaf.ring ==> x !in Members(rest))
      && Sizes(t) == Sizes(rest) + {leaf.size} && leaf.size !in Sizes(rest)
  {
    if t.right.Node? {
      TakeLeafMembers(t.right);
    } else if t.left.Node? {
      TakeLeafMembers(t.left);
    }
  }

  lemma {:induction false} TakeLeafRange(t: Trie, lo: nat, e: nat)
    requires t.Node? && InRange(t, lo, e)
    ensures InRange(TakeLeaf(t).1, lo, e) && lo <= TakeLeaf(t).0.size < lo + Pow2(e)
  {
    if t.right.Node? {
      TakeLeafRange(t.right, lo + Pow2(e - 1), e - 1);
    } else if t.left.Node? {
      TakeLeafRange(t.left, lo, e - 1);
    }
  }

  lemma {:induction false} TakeLeafSized(t: Trie, sizes: map<Addr, nat>)
    requires t.Node? && Sized(t, sizes)
    ensures Sized(TakeLeaf(t).1, sizes)
    ensures forall x :: x in TakeLeaf(t).0.ring ==> x in sizes && sizes[x] == TakeLeaf(t).0.size
  {
    if t.right.Node? {
      TakeLeafSized(t.right, sizes);
    } else if t.left.Node? {
      TakeLeafSized(t.left, sizes);
    }
  }

  lemma RemoveRootProper(t: Trie, k: nat)
    requires t.Node? && Proper(t) && k < |t.ring|
    ensures var t' := RemoveRoot(t, k);
      Proper(t') && Members(t') == Members(t) - {t.ring[k]} && Sizes(t') <= Sizes(t)
  {
    if |t.ring| > 1 {
      forall x ensures x in WithoutAt(t.ring, k) <==> x in t.ring && x != t.ring[k] {
        WithoutMembers(t.ring, k, x);
      }
      WithoutDistinct(t.ring, k);
    } else {
      assert t.ring == [t.ring[0]];
      if t.left.Node? || t.right.Node? {
        EmptiedRoot(t);
      }
    }
  }

  lemma EmptiedRoot(t: Trie)
    requires t.Node? && Proper(t) && |t.ring| == 1 && (t.left.Node? || t.right.Node?)
    ensures var t' := RemoveRoot(t, 0);
      Proper(t') && Members(t') == Members(t) - {t.ring[0]} && Sizes(t') <= Sizes(t)
  {
    TakeLeafMembers(t);
    var (leaf, rest) := TakeLeaf(t);
    assert rest.ring == t.ring && rest.size == t.size;
    assert t.ring == [t.ring[0]];
    Rerooted(rest, leaf);
  }

  // A node whose ring is exchanged for the ring of a leaf from elsewhere.
  lemma Rerooted(rest: Trie, leaf: Trie)
    requires rest.Node? && leaf.Node? && Proper(rest) && Proper(leaf) && |rest.ring| == 1
    requires leaf.size !in Sizes(rest) && forall x :: x in leaf.ring ==> x !in Members(rest)
    ensures var t' := Node(leaf.ring, leaf.size, rest.left, rest.right);
      && Proper(t') && Sizes(t') <= Sizes(rest) + {leaf.size}
      && Members(t') == Members(rest) + (set x | x in leaf.ring) - {rest.ring[0]}
  {
    assert rest.ring == [rest.ring[0]];
    var t', gone := Node(leaf.ring, leaf.size, rest.left, rest.right), rest.ring[0];
    forall x ensures x in Members(t') <==> (x in Members(rest) || x in leaf.ring) && x != gone {
      assert x in rest.ring <==> x == gone;
    }
  }

  lemma RemoveRootRange(t: Trie, k: nat, lo: nat, e: nat)
    requires t.Node? && InRange(t, lo, e) && k < |t.ring|
    ensures InRange(RemoveRoot(t, k), lo, e)
  {
    TakeLeafRange(t, lo, e);
  }

  lemma RemoveRootSized(t: Trie, k: nat, sizes: map<Addr, nat>)
    requires t.Node? && Proper(t) && Sized(t, sizes) && k < |t.ring|
    ensures Sized(RemoveRoot(t, k), sizes)
  {
    forall x ensures x in WithoutAt(t.ring, k) <==> x in t.ring && x != t.ring[k] {
      WithoutMembers(t.ring, k, x);
    }
    TakeLeafSized(t, sizes);
  }

  // -------------------------------------------------------- a subtree in its tree

  lemma {:induction false} AtMembers(t: Trie, path: Path)
    requires ValidPath(t, path) && Proper(t)
    ensures Members(At(t, path)) <= Members(t) && Sizes(At(t, path)) <= Sizes(t) && Proper(At(t, path))
  {
    if path != [] {
      AtMembers(Child(t, path[0]), path[1..]);
    }
  }

  lemma {:induction false} ReplaceSmaller(t: Trie, path: Path, u: Trie)
    requires ValidPath(t, path) && Proper(t) && Proper(u)
    requires Members(u) <= Members(At(t, path)) && Sizes(u) <= Sizes(At(t, path))
    ensures var t' := ReplaceAt(t, path, u);
      Proper(t') && Members(t') == Members(t) - (Members(At(t, path)) - Members(u)) && Sizes(t') <= Sizes(t)
  {
    if path != [] {
      var c := Child(t, path[0]);
      AtMembers(c, path[1..]);
      ReplaceSmaller(c, path[1..], u);
      WithChildShrunk(t, path[0], ReplaceAt(c, path[1..], u));
    }
  }

  lemma AtNode(t: Trie, path: Path)
    requires ValidPath(t, path) && At(t, path).Node?
    ensures t.Node?
  {
  }

  lemma {:induction false} ReplaceRange(t: Trie, path: Path, u: Trie, lo: nat, e: nat)
    requires ValidPath(t, path) && InRange(t, lo, e)
    requires forall lo', e' :: InRange(At(t, path), lo', e') ==> InRange(u, lo', e')
    ensures At(t, path).Node? ==> InRange(ReplaceAt(t, path, u), lo, e)
  {
    if path != [] && At(t, path).Node? {
      AtNode(Child(t, path[0]), path[1..]);
      ReplaceRange(Child(t, path[0]), path[1..], u, if path[0] then lo + Pow2(e - 1) else lo, e - 1);
    }
  }

  lemma {:induction false} ReplaceSized(t: Trie, path: Path, u: Trie, sizes: map<Addr, nat>)
    requires ValidPath(t, path) && Sized(t, sizes) && Sized(u, sizes)
    ensures Sized(ReplaceAt(t, path, u), sizes)
  {
    if path != [] {
      ReplaceSized(Child(t, path[0]), path[1..], u, sizes);
    }
  }

  lemma {:induction false} AtSized(t: Trie, path: Path, sizes: map<Addr, nat>)
    requires ValidPath(t, path) && Sized(t, sizes)
    ensures Sized(At(t, path), sizes)
  {
    if path != [] {
      AtSized(Child(t, path[0]), path[1..], sizes);
    }
  }

  // Where the node with this chunk is.
  ghost function Locate(t: Trie, x: Addr): (path: Path)
    requires x in Members(t)
    ensures ValidPath(t, path) && At(t, path).Node? && x in At(t, path).ring
  {
    if x in t.ring then []
    else if x in Members(t.left) then [false] + Locate(t.left, x)
    else [true] + Locate(t.right, x)
  }

  // ---------------------------------------------------------------------- the links

  // The links spell the tree: `up` is the parent link of its root, i the index all its chunks hold.
  ghost predicate Wired(m: Memory, t: Trie, up: Link, i: nat) {
    t.Node? ==>
      && t.ring != [] && RingOk(m, t.ring)
      && Get(m, t.ring[0]).parent == up
      && Get(m, t.ring[0]).left == Root(t.left) && Get(m, t.ring[0]).right == Root(t.right)
      && (forall k :: 0 < k < |t.ring| ==> Spare(m, t.ring[k]))
      && (forall k :: 0 <= k < |t.ring| ==> Get(m, t.ring[k]).index == i)
      && Wired(m, t.left, Chunk(t.ring[0]), i) && Wired(m, t.right, Chunk(t.ring[0]), i)
  }

  // A chunk of a ring other than its first has no links into the tree.
  ghost predicate Spare(m: Memory, x: Addr) {
    Get(m, x).parent == Null && Get(m, x).left == 0 && Get(m, x).right == 0
  }

  lemma {:induction false} WiredKept(m: Memory, m': Memory, t: Trie, up: Link, i: nat)
    requires Wired(m, t, up, i) && forall x :: x in Members(t) ==> Get(m', x) == Get(m, x)
    ensures Wired(m', t, up, i)
  {
    if t.Node? {
      assert forall k :: 0 <= k < |t.ring| ==> t.ring[k] in Members(t);
      RingKept(m, m', t.ring);
      WiredKept(m, m', t.left, Chunk(t.ring[0]), i);
      WiredKept(m, m', t.right, Chunk(t.ring[0]), i);
    }
  }

  // The link that leads to the parent of the subtree at `path`.
  ghost function UpAt(t: Trie, path: Path, up: Link): (l: Link)
    requires ValidPath(t, path)
    ensures path != [] ==> l.Chunk?
  {
    if path == [] then up else UpAt(Child(t, path[0]), path[1..], Chunk(Root(t)))
  }

  lemma {:induction false} WiredAt(m: Memory, t: Trie, path: Path, up: Link, i: nat)
    requires ValidPath(t, path) && Wired(m, t, up, i)
    ensures Wired(m, At(t, path), UpAt(t, path, up), i)
  {
    if path != [] {
      WiredAt(m, Child(t, path[0]), path[1..], Chunk(Root(t)), i);
    }
  }

  lemma {:induction false} UpAtLast(t: Trie, path: Path, up: Link)
    requires ValidPath(t, path) && path != []
    ensures var front := path[..|path| - 1];
      && ValidPath(t, front) && At(t, front).Node? && UpAt(t, path, up) == Chunk(Root(At(t, front)))
      && At(t, path) == Child(At(t, front), path[|path| - 1])
  {
    var front := path[..|path| - 1];
    if |path| > 1 {
      assert front[1..] == path[1..][..|path[1..]| - 1];
      UpAtLast(Child(t, path[0]), path[1..], Chunk(Root(t)));
    }
  }

  // After the subtree at `path` was exchanged for u, and the child link above it redirected.
  lemma {:induction false} WiredReplace(m: Memory, m': Memory, t: Trie, path: Path, u: Trie, up: Link, i: nat)
    requires ValidPath(t, path) && Proper(t) && Wired(m, t, up, i) && Wired(m', u, UpAt(t, path, up), i)
    requires path != [] ==> var p := UpAt(t, path, up).at;
      Get(m', p) == (if path[|path| - 1] then Get(m, p).(right := Root(u)) else Get(m, p).(left := Root(u)))
    requires forall x :: x in Members(t) && x !in Members(At(t, path)) && (path != [] ==> x != UpAt(t, path, up).at) ==>
      Get(m', x) == Get(m, x)
    ensures Wired(m', ReplaceAt(t, path, u), up, i)
  {
    if path != [] {
      var c, side, head := Child(t, path[0]), path[0], t.ring[0];
      var p := UpAt(t, path, up).at;
      AtMembers(c, path[1..]);
      UpAtInside(t, path, up);
      OtherSideWired(m, m', t, path, up, i, p);
      if |path| > 1 {
        UpAtInside(c, path[1..], Chunk(head));
        ReplaceRoot(c, path[1..], u);
        HeadKept(m, m', t, path, up, i, p);
      }
      WiredReplace(m, m', c, path[1..], u, Chunk(head), i);
      RingsKept(m, m', t, path, p);
      NodeRewired(m, m', t, side, ReplaceAt(c, path[1..], u), up, i);
    }
  }

  // Only the link to one child of a node changed.
  lemma NodeRewired(m: Memory, m': Memory, t: Trie, side: bool, c: Trie, up: Link, i: nat)
    requires t.Node? && Proper(t) && Wired(m, t, up, i)
    requires var h, g := t.ring[0], Get(m, t.ring[0]);
      Get(m', h) == if side then g.(right := Root(c)) else g.(left := Root(c))
    requires forall x :: x in t.ring && x != t.ring[0] ==> Get(m', x) == Get(m, x)
    requires Wired(m', c, Chunk(t.ring[0]), i) && Wired(m', Child(t, !side), Chunk(t.ring[0]), i)
    ensures Wired(m', WithChild(t, side, c), up, i)
  {
    RingKept(m, m', t.ring);
    forall k | 0 < k < |t.ring| ensures Spare(m', t.ring[k]) {
      assert Spare(m, t.ring[k]) && t.ring[k] in t.ring && t.ring[k] != t.ring[0];
    }
  }

  // Above a deeper change, a node itself is not touched.
  lemma HeadKept(m: Memory, m': Memory, t: Trie, path: Path, up: Link, i: nat, p: Addr)
    requires |path| > 1 && ValidPath(t, path) && Proper(t) && Wired(m, t, up, i)
    requires Members(At(t, path)) <= Members(Child(t, path[0])) && p in Members(Child(t, path[0]))
    requires forall x :: x in Members(t) && x !in Members(At(t, path)) && x != p ==> Get(m', x) == Get(m, x)
    ensures Get(m', t.ring[0]) == Get(m, t.ring[0])
  {
    assert t.ring[0] in Members(t) && t.ring[0] !in Members(Child(t, path[0]));
  }

  lemma RingsKept(m: Memory, m': Memory, t: Trie, path: Path, p: Addr)
    requires path != [] && ValidPath(t, path) && Proper(t)
    requires Members(At(t, path)) <= Members(Child(t, path[0])) && (p == t.ring[0] || p in Members(Child(t, path[0])))
    requires forall x :: x in Members(t) && x !in Members(At(t, path)) && x != p ==> Get(m', x) == Get(m, x)
    ensures forall x :: x in t.ring && x != t.ring[0] ==> Get(m', x) == Get(m, x)
  {
  }

  // The side of a node away from the path.
  lemma OtherSideWired(m: Memory, m': Memory, t: Trie, path: Path, up: Link, i: nat, p: Addr)
    requires path != [] && ValidPath(t, path) && Proper(t) && Wired(m, t, up, i)
    requires Members(At(t, path)) <= Members(Child(t, path[0]))
    requires p in (set x | x in t.ring) || p in Members(Child(t, path[0]))
    requires forall x :: x in Members(t) && x !in Members(At(t, path)) && x != p ==> Get(m', x) == Get(m, x)
    ensures Wired(m', Child(t, !path[0]), Chunk(t.ring[0]), i)
  {
    WiredKept(m, m', Child(t, !path[0]), Chunk(t.ring[0]), i);
  }

  lemma {:induction false} UpAtInside(t: Trie, path: Path, up: Link)
    requires ValidPath(t, path) && path != [] && Proper(t)
    ensures var p := UpAt(t, path, up);
      p.Chunk? && p.at in Members(t) && p.at !in Members(At(t, path)) && p.at > 0
      && (if |path| == 1 then p.at == t.ring[0] else p.at in Members(Child(t, path[0])))
  {
    var c := Child(t, path[0]);
    if |path| > 1 {
      UpAtInside(c, path[1..], Chunk(Root(t)));
    }
  }

  lemma ReplaceRoot(t: Trie, path: Path, u: Trie)
    requires ValidPath(t, path) && path != []
    ensures Root(ReplaceAt(t, path, u)) == Root(t)
  {
  }
}
