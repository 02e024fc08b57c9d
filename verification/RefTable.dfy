/** luaL_ref and luaL_unref: references to values, with the list of free references kept in the table itself. */
module RefTable {

  const FREELIST_REF := 0
  const LUA_REFNIL := -1

  datatype Value = Nil | Number(n: int) | Other(id: int)

  // A table by its integer keys. Absent keys read as nil.
  type Slots = map<int, Value>

  function Get(t: Slots, k: int): Value {
    if k in t then t[k] else Nil
  }

  function Set(t: Slots, k: int, v: Value): Slots {
    if v == Nil then t - {k} else t[k := v]
  }

  // lua_tointeger, for values that are not strings.
  function ToInteger(v: Value): int {
    if v.Number? then v.n else 0
  }

  // The results lua_objlen may give: any border of the table.
  predicate Border(t: Slots, n: nat) {
    (n == 0 || Get(t, n) != Nil) && Get(t, n + 1) == Nil
  }

  // The list of free references that starts with `head`.
  ghost predicate Chain(t: Slots, head: Value, free: seq<int>)
    decreases |free|
  {
    if free == [] then ToInteger(head) == 0
    else ToInteger(head) == free[0] && Chain(t, Get(t, free[0]), free[1..])
  }

  lemma {:induction false} ChainKept(t: Slots, t': Slots, head: Value, free: seq<int>)
    requires Chain(t, head, free) && forall i :: 0 <= i < |free| ==> Get(t', free[i]) == Get(t, free[i])
    ensures Chain(t', head, free)
    decreases |free|
  {
    if free != [] {
      ChainKept(t, t', Get(t, free[0]), free[1..]);
    }
  }

  ghost predicate AllKeys(s: seq<int>) {
    forall i :: 0 <= i < |s| ==> s[i] >= 1
  }

  ghost predicate Distinct(s: seq<int>) {
    forall i, j :: 0 <= i < j < |s| ==> s[i] != s[j]
  }

  // Each key from 1 to n is either live or once in the free list, and there are no others. A free key
  // may be nil: the first one ever freed ends the list that way.
  ghost predicate Consistent(t: Slots, live: map<int, Value>, free: seq<int>, n: nat) {
    && (forall k :: k >= 1 ==> (k in live || k in free <==> k <= n))
    && (forall k :: k in live ==> k >= 1 && k !in free && live[k] != Nil && Get(t, k) == live[k])
    && AllKeys(free)
    && (forall k :: k > n ==> Get(t, k) == Nil)
    && Distinct(free) && Chain(t, Get(t, FREELIST_REF), free)
  }

  // With an empty free list the table is dense, so there is only one border, however the length is
  // searched for; and the key behind it is fresh.
  lemma BorderIsEnd(t: Slots, live: map<int, Value>, free: seq<int>, n: nat, b: nat)
    requires Consistent(t, live, free, n) && free == [] && Border(t, b)
    ensures b == n && b + 1 !in live
  {
    assert b >= 1 && b > n ==> Get(t, b) == Nil;
    assert b + 1 <= n ==> b + 1 in live;
  }

  // Only the last free key may be nil.
  lemma {:induction false} LinkNotNil(t: Slots, head: Value, free: seq<int>, i: nat)
    requires Chain(t, head, free) && i + 1 < |free| && AllKeys(free)
    ensures Get(t, free[i]) != Nil
    decreases i
  {
    if i > 0 {
      LinkNotNil(t, Get(t, free[0]), free[1..], i - 1);
    }
  }

  // The length is found wherever it is searched for, if and only if no free key is nil; the last one in
  // the list is the only one that may be.
  lemma BorderExactly(t: Slots, live: map<int, Value>, free: seq<int>, n: nat)
    requires Consistent(t, live, free, n)
    ensures (forall b: nat :: Border(t, b) ==> b == n) <==> free == [] || Get(t, free[|free| - 1]) != Nil
  {
    forall k | 1 <= k <= n && (free == [] || k != free[|free| - 1]) ensures Get(t, k) != Nil {
      if k in free {
        var i :| 0 <= i < |free| && free[i] == k;
        LinkNotNil(t, Get(t, FREELIST_REF), free, i);
      } else {
        assert k in live;
      }
    }
    if free != [] {
      var last := free[|free| - 1];
      assert last in free;
      if Get(t, last) == Nil {
        assert Border(t, last - 1);
      }
    }
  }

  // After freeing 1 of 1 and 2 the table has a border at 0, yet 2 is live.
  lemma BorderNotEnd(v: Value)
    requires v != Nil
    ensures exists t, live, free, n: nat :: Consistent(t, live, free, n) && Border(t, 0) && 2 in live && live[2] == v
  {
    var t: Slots := map[0 := Number(1), 2 := v];
    assert Get(t, 1) == Nil;
    assert Chain(t, Number(1), [1]);
    assert Consistent(t, map[2 := v], [1], 2) && Border(t, 0);
  }

  class Refs {
    var t: Slots
    ghost var live: map<int, Value>
    ghost var free: seq<int>
    ghost var n: nat

    ghost predicate Valid()
      reads this
    {
      Consistent(t, live, free, n)
    }

    constructor ()
      ensures Valid() && live == map[]
    {
      t, live, free, n := map[], map[], [], 0;
    }

    // luaL_ref. `len` is what lua_objlen gives.
    method Ref(v: Value, len: nat) returns (r: int)
      requires Valid() && Border(t, len)
      modifies this
      ensures Valid()
      ensures v == Nil ==> r == LUA_REFNIL && live == old(live) && t == old(t)
      ensures v != Nil ==> r >= 1 && r !in old(live) && live == old(live)[r := v]
      ensures v != Nil && old(free) != [] ==> r == old(free[0]) && free == old(free[1..]) && n == old(n)
      ensures v != Nil && old(free) == [] ==> r == old(n) + 1 == n && free == []
    {
      hide Consistent;
      if v == Nil {
        return LUA_REFNIL;
      }
      HeadOfList(t, live, free, n);
      r := ToInteger(Get(t, FREELIST_REF));
      if r != 0 {
        TakeFree(t, live, free, n, v);
        t := Set(t, FREELIST_REF, Get(t, r));
        free := free[1..];
      } else {
        BorderIsEnd(t, live, free, n, len);
        TakeNew(t, live, n, v);
        r := len;
        r := r + 1;
        n := n + 1;
      }
      t := Set(t, r, v);
      live := live[r := v];
    }

    // luaL_unref on a live reference, or on a negative one, which is ignored.
    method Unref(ref: int)
      requires Valid() && (ref >= 0 ==> ref in live)
      modifies this
      ensures Valid() && n == old(n)
      ensures ref < 0 ==> live == old(live) && t == old(t) && free == old(free)
      ensures ref >= 0 ==> live == old(live) - {ref} && free == [ref] + old(free)
    {
      hide Consistent;
      if ref >= 0 {
        PutFree(t, live, free, n, ref);
        t := Set(t, ref, Get(t, FREELIST_REF));
        t := Set(t, FREELIST_REF, Number(ref));
        live := live - {ref};
        free := [ref] + free;
      }
    }
  }

  lemma GetSet(t: Slots, k: int, v: Value)
    ensures forall j :: Get(Set(t, k, v), j) == if j == k then v else Get(t, j)
  {
  }

  lemma HeadOfList(t: Slots, live: map<int, Value>, free: seq<int>, n: nat)
    requires Consistent(t, live, free, n)
    ensures ToInteger(Get(t, FREELIST_REF)) == if free == [] then 0 else free[0]
    ensures free != [] ==> free[0] >= 1 && free[0] !in live
  {
    assert free != [] ==> free[0] in free;
  }

  // Without its first element the list holds the others, once each.
  lemma RestOfList(free: seq<int>)
    requires free != [] && Distinct(free) && AllKeys(free)
    ensures Distinct(free[1..]) && AllKeys(free[1..]) && free[0] !in free[1..]
    ensures forall k :: k in free <==> k in free[1..] || k == free[0]
  {
    assert free == [free[0]] + free[1..];
  }

  lemma TakeFree(t: Slots, live: map<int, Value>, free: seq<int>, n: nat, v: Value)
    requires Consistent(t, live, free, n) && free != [] && v != Nil
    ensures Consistent(Set(Set(t, FREELIST_REF, Get(t, free[0])), free[0], v), live[free[0] := v], free[1..], n)
  {
    hide Set, Get, Distinct, AllKeys;
    var r, rest := free[0], free[1..];
    var t1 := Set(t, FREELIST_REF, Get(t, r));
    var t' := Set(t1, r, v);
    GetSet(t, FREELIST_REF, Get(t, r));
    GetSet(t1, r, v);
    RestOfList(free);
    HeadOfList(t, live, free, n);
    forall i | 0 <= i < |rest| ensures Get(t', rest[i]) == Get(t, rest[i]) {
      KeyOf(rest, i);
    }
    ChainKept(t, t', Get(t, r), rest);
  }

  lemma KeyOf(s: seq<int>, i: nat)
    requires AllKeys(s) && i < |s|
    ensures s[i] >= 1 && s[i] in s
  {
  }

  lemma TakeNew(t: Slots, live: map<int, Value>, n: nat, v: Value)
    requires Consistent(t, live, [], n) && v != Nil
    ensures Consistent(Set(t, n + 1, v), live[n + 1 := v], [], n + 1)
  {
    GetSet(t, n + 1, v);
  }

  // What luaL_unref leaves behind.
  function Freed(t: Slots, ref: int): Slots {
    Set(Set(t, ref, Get(t, FREELIST_REF)), FREELIST_REF, Number(ref))
  }

  lemma FreedGet(t: Slots, ref: int)
    ensures forall k ::
      Get(Freed(t, ref), k) ==
        if k == FREELIST_REF then Number(ref) else if k == ref then Get(t, FREELIST_REF) else Get(t, k)
  {
    GetSet(t, ref, Get(t, FREELIST_REF));
    GetSet(Set(t, ref, Get(t, FREELIST_REF)), FREELIST_REF, Number(ref));
  }

  lemma FreedChain(t: Slots, live: map<int, Value>, free: seq<int>, n: nat, ref: int)
    requires Consistent(t, live, free, n) && ref >= 1 && ref !in free
    ensures Chain(Freed(t, ref), Number(ref), [ref] + free)
  {
    FreedGet(t, ref);
    forall i | 0 <= i < |free| ensures free[i] != ref && free[i] >= 1 {
      assert free[i] in free;
    }
    ChainKept(t, Freed(t, ref), Get(t, FREELIST_REF), free);
    assert ([ref] + free)[1..] == free;
  }

  lemma PutFree(t: Slots, live: map<int, Value>, free: seq<int>, n: nat, ref: int)
    requires Consistent(t, live, free, n) && ref in live
    ensures Consistent(Freed(t, ref), live - {ref}, [ref] + free, n)
  {
    FreedGet(t, ref);
    FreedChain(t, live, free, n, ref);
  }

  // The key behind the last one, although never handed out.
  lemma PutNext(t: Slots, live: map<int, Value>, free: seq<int>, n: nat)
    requires Consistent(t, live, free, n)
    ensures Consistent(Freed(t, n + 1), live - {n + 1}, [n + 1] + free, n + 1)
  {
    FreedGet(t, n + 1);
    FreedChain(t, live, free, n, n + 1);
    assert live - {n + 1} == live;
  }

  // The key of the list itself, which empties the list.
  lemma PutHead(t: Slots, live: map<int, Value>, free: seq<int>, n: nat)
    requires Consistent(t, live, free, n) && (free == [] || (free == [n] && Get(t, n) == Nil))
    ensures free == [] || n >= 1
    ensures Consistent(Freed(t, 0), live - {0}, [], if free == [] then n else n - 1)
  {
    FreedGet(t, 0);
    assert live - {0} == live;
    assert free != [] ==> n in free;
  }

  // Two chains from one head agree as far as the tables do on the first.
  lemma {:induction false} ChainAgrees(t: Slots, t': Slots, head: Value, free: seq<int>, free': seq<int>, i: nat)
    requires Chain(t, head, free) && Chain(t', head, free') && AllKeys(free) && i < |free|
    requires forall j :: 0 <= j < i ==> Get(t', free[j]) == Get(t, free[j])
    ensures i < |free'| && free'[i] == free[i]
    decreases i
  {
    if i > 0 {
      ChainAgrees(t, t', Get(t, free[0]), free[1..], free'[1..], i - 1);
    }
  }

  lemma {:induction false} ChainUnique(t: Slots, t': Slots, head: Value, free: seq<int>, free': seq<int>)
    requires Chain(t, head, free) && Chain(t', head, free') && AllKeys(free) && AllKeys(free')
    requires forall i :: 0 <= i < |free| ==> Get(t', free[i]) == Get(t, free[i])
    ensures free' == free
    decreases |free|
  {
    if free != [] {
      ChainUnique(t, t', Get(t, free[0]), free[1..], free'[1..]);
      assert free == [free[0]] + free[1..] && free' == [free'[0]] + free'[1..];
    }
  }

  // A double free makes the list a cycle.
  lemma FreedTwice(t: Slots, live: map<int, Value>, free: seq<int>, n: nat, ref: int, free': seq<int>)
    requires Consistent(t, live, free, n) && ref in free && Chain(Freed(t, ref), Number(ref), free')
    ensures !Distinct(free')
  {
    FreedGet(t, ref);
    var i :| 0 <= i < |free| && free[i] == ref;
    forall j | 0 <= j < i ensures Get(Freed(t, ref), free[j]) == Get(t, free[j]) {
      assert free[j] != free[i];
    }
    ChainAgrees(t, Freed(t, ref), Get(t, FREELIST_REF), free, free'[1..], i);
    assert free'[0] == ref && free'[i + 1] == free'[1..][i];
  }

  // A key farther out is put in front, and the keys between stay out.
  lemma FreedBeyond(t: Slots, live: map<int, Value>, free: seq<int>, n: nat, ref: int, free': seq<int>)
    requires Consistent(t, live, free, n) && ref > n
    requires Chain(Freed(t, ref), Number(ref), free') && AllKeys(free')
    ensures ref in free' && (ref != n + 1 ==> n + 1 !in free')
  {
    FreedGet(t, ref);
    forall i | 0 <= i < |free| ensures free[i] != ref && free[i] >= 1 {
      assert free[i] in free;
    }
    ChainUnique(t, Freed(t, ref), Get(t, FREELIST_REF), free, free'[1..]);
    assert free' == [ref] + free;
  }

  // No other key leaves a consistent table: the list is a cycle, or there is a gap before its first key.
  lemma OtherKey(t: Slots, live: map<int, Value>, free: seq<int>, n: nat, ref: int, free': seq<int>, n': nat)
    requires Consistent(t, live, free, n) && ref >= 1 && ref !in live && ref != n + 1
    ensures !Consistent(Freed(t, ref), live - {ref}, free', n')
  {
    FreedGet(t, ref);
    if Chain(Freed(t, ref), Number(ref), free') && AllKeys(free') {
      if ref in free {
        FreedTwice(t, live, free, n, ref, free');
      } else {
        FreedBeyond(t, live, free, n, ref, free');
      }
    }
  }

  // An emptied list forgets all free keys, so there may have been only one, the last key, and it nil.
  lemma NothingForgotten(t: Slots, live: map<int, Value>, free: seq<int>, n: nat, free': seq<int>, n': nat)
    requires Consistent(t, live, free, n) && Consistent(Freed(t, 0), live - {0}, free', n')
    ensures free == [] || (free == [n] && Get(t, n) == Nil)
  {
    FreedGet(t, 0);
    HeadOfList(Freed(t, 0), live - {0}, free', n');
    assert live - {0} == live;
    if free != [] {
      assert free[0] in free;
      if |free| > 1 {
        LinkNotNil(t, Get(t, FREELIST_REF), free, 0);
      } else {
        assert free == [free[0]];
        assert n in live || n in free;
      }
    }
  }

  // luaL_unref leaves a consistent table, with whatever free list and end, if and only if the reference
  // was live, or is the next one to be handed out behind the end, or is the key of the list while there
  // is no free key to forget.
  lemma PutFreeExactly(t: Slots, live: map<int, Value>, free: seq<int>, n: nat, ref: nat)
    requires Consistent(t, live, free, n)
    ensures (exists free', n': nat :: Consistent(Freed(t, ref), live - {ref}, free', n')) <==>
      ref in live || ref == n + 1 || (ref == 0 && (free == [] || (free == [n] && Get(t, n) == Nil)))
  {
    hide Consistent;
    if ref in live {
      PutFree(t, live, free, n, ref);
    } else if ref == n + 1 {
      PutNext(t, live, free, n);
    } else if ref == 0 {
      if free == [] || (free == [n] && Get(t, n) == Nil) {
        PutHead(t, live, free, n);
      }
      forall free', n': nat | Consistent(Freed(t, 0), live - {0}, free', n')
        ensures free == [] || (free == [n] && Get(t, n) == Nil)
      {
        NothingForgotten(t, live, free, n, free', n');
      }
    } else {
      forall free', n': nat ensures !Consistent(Freed(t, ref), live - {ref}, free', n') {
        OtherKey(t, live, free, n, ref, free', n');
      }
    }
  }
}
