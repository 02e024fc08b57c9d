/** The links that free chunks hold in place of user data, and rings of doubly linked chunks. */
module AllocLinks {

  // Chunks have positive addresses, 0 is the null pointer, the heads of the small bins are negative.
  type Addr = int

  // A parent link: none, the slot of a tree bin, or a chunk.
  datatype Link = Null | Slot(i: nat) | Chunk(at: Addr)

  datatype Fields = Fields(fd: Addr, bk: Addr, left: Addr, right: Addr, parent: Link, index: nat)

  type Memory = map<Addr, Fields>

  // What memory nobody wrote to yet holds is of no matter.
  function Get(m: Memory, x: Addr): Fields {
    if x in m then m[x] else Fields(0, 0, 0, 0, Null, 0)
  }

  function SetFd(m: Memory, x: Addr, v: Addr): Memory {
    m[x := Get(m, x).(fd := v)]
  }

  function SetBk(m: Memory, x: Addr, v: Addr): Memory {
    m[x := Get(m, x).(bk := v)]
  }

  function SetParent(m: Memory, x: Addr, v: Link): Memory {
    m[x := Get(m, x).(parent := v)]
  }

  function SetChild(m: Memory, x: Addr, side: bool, v: Addr): Memory {
    if side then m[x := Get(m, x).(right := v)] else m[x := Get(m, x).(left := v)]
  }

  function ChildOf(m: Memory, x: Addr, side: bool): Addr {
    if side then Get(m, x).right else Get(m, x).left
  }

  // Only the chunks in xs differ.
  ghost predicate SameBut(m: Memory, m': Memory, xs: set<Addr>) {
    forall x :: x !in xs ==> Get(m', x) == Get(m, x)
  }

  // ----------------------------------------------------------------------- rings

  function Next(k: nat, n: nat): nat
    requires k < n
  {
    if k + 1 == n then 0 else k + 1
  }

  ghost predicate Distinct(ring: seq<Addr>) {
    forall i, j :: 0 <= i < j < |ring| ==> ring[i] != ring[j]
  }

  // Forward links go around the ring, backward links the other way.
  ghost predicate RingOk(m: Memory, ring: seq<Addr>) {
    forall k :: 0 <= k < |ring| ==> Joined(m, ring[k], ring[Next(k, |ring|)])
  }

  ghost predicate Joined(m: Memory, x: Addr, y: Addr) {
    Get(m, x).fd == y && Get(m, y).bk == x
  }

  // B->fd = P; F->bk = P; P->fd = F; P->bk = B.
  function LinkIn(m: Memory, b: Addr, f: Addr, p: Addr): Memory {
    SetBk(SetFd(SetBk(SetFd(m, b, p), f, p), p, f), p, b)
  }

  // F->bk = B; B->fd = F.
  function LinkOut(m: Memory, b: Addr, f: Addr): Memory {
    SetFd(SetBk(m, f, b), b, f)
  }

  // The ring with p put in behind its first chunk.
  function WithSecond(ring: seq<Addr>, p: Addr): seq<Addr>
    requires ring != []
  {
    [ring[0], p] + ring[1..]
  }

  // The ring without the chunk at k; if that was the first, the last one becomes the first.
  function WithoutAt(ring: seq<Addr>, k: nat): seq<Addr>
    requires k < |ring|
  {
    if k > 0 then ring[..k] + ring[k + 1..]
    else if |ring| == 1 then []
    else [ring[|ring| - 1]] + ring[1..|ring| - 1]
  }

  lemma RingKept(m: Memory, m': Memory, ring: seq<Addr>)
    requires RingOk(m, ring)
    requires forall k :: 0 <= k < |ring| ==>
      Get(m', ring[k]).fd == Get(m, ring[k]).fd && Get(m', ring[k]).bk == Get(m, ring[k]).bk
    ensures RingOk(m', ring)
  {
    forall k | 0 <= k < |ring| ensures Joined(m', ring[k], ring[Next(k, |ring|)]) {
      assert Joined(m, ring[k], ring[Next(k, |ring|)]);
    }
  }

  lemma LinkedIn(m: Memory, b: Addr, f: Addr, p: Addr)
    requires p != b && p != f
    ensures var m' := LinkIn(m, b, f, p);
      && SameBut(m, m', {b, f, p})
      && Get(m', p) == Get(m, p).(fd := f, bk := b)
      && Get(m', b) == (if b == f then Get(m, b).(fd := p, bk := p) else Get(m, b).(fd := p))
      && Get(m', f) == (if b == f then Get(m, b).(fd := p, bk := p) else Get(m, f).(bk := p))
  {
  }

  lemma RingInsert(m: Memory, ring: seq<Addr>, p: Addr)
    requires ring != [] && Distinct(ring) && p !in ring && RingOk(m, ring)
    ensures var f, ring' := Get(m, ring[0]).fd, WithSecond(ring, p);
      RingOk(LinkIn(m, ring[0], f, p), ring') && Distinct(ring') && f in ring
  {
    hide LinkIn;
    var f, ring', n := Get(m, ring[0]).fd, WithSecond(ring, p), |ring|;
    assert Joined(m, ring[0], ring[Next(0, n)]);
    LinkedIn(m, ring[0], f, p);
    forall k | 0 <= k < |ring'| ensures Joined(LinkIn(m, ring[0], f, p), ring'[k], ring'[Next(k, n + 1)]) {
      if k >= 2 {
        assert ring'[k] == ring[k - 1] && ring'[Next(k, n + 1)] == ring[Next(k - 1, n)];
        assert Joined(m, ring[k - 1], ring[Next(k - 1, n)]);
        assert ring[k - 1] != ring[0] && ring[Next(k - 1, n)] != f;
      }
    }
  }

  // A ring of one chunk is linked to itself.
  lemma RingSingle(m: Memory, p: Addr)
    requires Get(m, p).fd == p && Get(m, p).bk == p
    ensures RingOk(m, [p])
  {
  }

  lemma LinkedOut(m: Memory, b: Addr, f: Addr)
    ensures var m' := LinkOut(m, b, f);
      && SameBut(m, m', {b, f})
      && Get(m', b) == (if b == f then Get(m, b).(fd := f, bk := b) else Get(m, b).(fd := f))
      && Get(m', f) == (if b == f then Get(m, b).(fd := f, bk := b) else Get(m, f).(bk := b))
  {
  }

  // What the links of a chunk say about its ring.
  lemma RingNeighbours(m: Memory, ring: seq<Addr>, k: nat)
    requires Distinct(ring) && RingOk(m, ring) && k < |ring|
    ensures var n := |ring|;
      && Get(m, ring[k]).fd == ring[Next(k, n)]
      && Get(m, ring[k]).bk == ring[if k == 0 then n - 1 else k - 1]
      && (Get(m, ring[k]).bk == ring[k] <==> n == 1)
      && (Get(m, ring[k]).bk == Get(m, ring[k]).fd <==> n <= 2)
  {
    var p := if k == 0 then |ring| - 1 else k - 1;
    assert Next(p, |ring|) == k && Joined(m, ring[p], ring[k]) && Joined(m, ring[k], ring[Next(k, |ring|)]);
  }

  // Where the chunk at j of the ring without k was before.
  function OldIndex(n: nat, k: nat, j: nat): (o: nat)
    requires k < n && j < n - 1
    ensures o < n && o != k
  {
    if k == 0 then (if j == 0 then n - 1 else j) else if j < k then j else j + 1
  }

  lemma OldNext(n: nat, k: nat, j: nat)
    requires k < n && j < n - 1
    ensures var o := OldIndex(n, k, j);
      OldIndex(n, k, Next(j, n - 1)) == if Next(o, n) == k then Next(k, n) else Next(o, n)
  {
  }

  lemma OldChunk(ring: seq<Addr>, k: nat, j: nat)
    requires k < |ring| && j < |ring| - 1
    ensures |WithoutAt(ring, k)| == |ring| - 1 && WithoutAt(ring, k)[j] == ring[OldIndex(|ring|, k, j)]
  {
  }

  lemma WithoutDistinct(ring: seq<Addr>, k: nat)
    requires k < |ring| && Distinct(ring)
    ensures Distinct(WithoutAt(ring, k))
  {
    var ring', n := WithoutAt(ring, k), |ring|;
    forall i, j | 0 <= i < j < n - 1 ensures ring'[i] != ring'[j] {
      OldChunk(ring, k, i);
      OldChunk(ring, k, j);
    }
  }

  lemma RingRemove(m: Memory, ring: seq<Addr>, k: nat)
    requires |ring| >= 2 && Distinct(ring) && RingOk(m, ring) && k < |ring|
    ensures var b, f, ring' := Get(m, ring[k]).bk, Get(m, ring[k]).fd, WithoutAt(ring, k);
      && RingOk(LinkOut(m, b, f), ring') && Distinct(ring') && ring'[0] == (if k == 0 then b else ring[0])
      && b in ring && f in ring && b != ring[k] && f != ring[k]
  {
    var b, f, ring', n := Get(m, ring[k]).bk, Get(m, ring[k]).fd, WithoutAt(ring, k), |ring|;
    RingNeighbours(m, ring, k);
    LinkedOut(m, b, f);
    WithoutDistinct(ring, k);
    forall j | 0 <= j < n - 1 ensures Joined(LinkOut(m, b, f), ring'[j], ring'[Next(j, n - 1)]) {
      OldChunk(ring, k, j);
      OldChunk(ring, k, Next(j, n - 1));
      OldNext(n, k, j);
      StillJoined(m, ring, k, OldIndex(n, k, j));
    }
    assert |ring'| == n - 1;
  }

  lemma StillJoined(m: Memory, ring: seq<Addr>, k: nat, o: nat)
    requires |ring| >= 2 && Distinct(ring) && RingOk(m, ring) && k < |ring| && o < |ring| && o != k
    ensures var n := |ring|;
      Joined(LinkOut(m, Get(m, ring[k]).bk, Get(m, ring[k]).fd), ring[o],
             ring[if Next(o, n) == k then Next(k, n) else Next(o, n)])
  {
    var b, f, n := Get(m, ring[k]).bk, Get(m, ring[k]).fd, |ring|;
    RingNeighbours(m, ring, k);
    LinkedOut(m, b, f);
    hide LinkOut;
    assert Joined(m, ring[o], ring[Next(o, n)]);
  }

  lemma WithoutMembers(ring: seq<Addr>, k: nat, x: Addr)
    requires k < |ring| && Distinct(ring)
    ensures x in WithoutAt(ring, k) <==> x in ring && x != ring[k]
  {
    var ring', n := WithoutAt(ring, k), |ring|;
    if x in ring && x != ring[k] {
      var i :| 0 <= i < n && ring[i] == x;
      var j := if k == 0 then (if i == n - 1 then 0 else i) else if i < k then i else i - 1;
      assert ring'[j] == ring[i];
    }
    if x in ring' {
      var j :| 0 <= j < |ring'| && ring'[j] == x;
      assert ring'[j] == ring[OldIndex(n, k, j)];
    }
  }
}
