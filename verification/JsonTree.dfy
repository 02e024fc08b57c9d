/** The value under construction: pointers into it, and what adding to it, opening and closing do. */
module JsonTree {
  import opened JsonText
  import opened JsonValue

  // A pointer into a value, as the positions of the children on the way down.
  type Path = seq<nat>
  datatype Pointer = Nowhere | At(path: Path)

  // ---------------------------------------------------------------- children

  predicate Compound(v: Value) {
    v.Object? || v.Array?
  }

  function ChildCount(v: Value): nat {
    match v
    case Object(ms) => |ms|
    case Array(vs) => |vs|
    case _ => 0
  }

  function Child(v: Value, k: nat): Value
    requires k < ChildCount(v)
  {
    if v.Object? then v.members[k].value else v.items[k]
  }

  function SetChild(v: Value, k: nat, w: Value): Value
    requires k < ChildCount(v)
  {
    if v.Object? then Object(v.members[k := Member(v.members[k].name, w)]) else Array(v.items[k := w])
  }

  // v with one more child behind the others, in an object under this name.
  function Added(v: Value, name: Text, w: Value): Value
    requires Compound(v)
  {
    if v.Object? then Object(v.members + [Member(name, w)]) else Array(v.items + [w])
  }

  // ---------------------------------------------------------------- paths

  predicate Has(v: Value, p: Path) {
    p == [] || (p[0] < ChildCount(v) && Has(Child(v, p[0]), p[1..]))
  }

  function Get(v: Value, p: Path): Value
    requires Has(v, p)
  {
    if p == [] then v else Get(Child(v, p[0]), p[1..])
  }

  function Set(v: Value, p: Path, w: Value): Value
    requires Has(v, p)
  {
    if p == [] then w else SetChild(v, p[0], Set(Child(v, p[0]), p[1..], w))
  }

  lemma {:induction false} GetSet(v: Value, p: Path, w: Value)
    requires Has(v, p)
    ensures Has(Set(v, p, w), p) && Get(Set(v, p, w), p) == w
  {
    if p != [] {
      GetSet(Child(v, p[0]), p[1..], w);
    }
  }

  lemma {:induction false} SetSet(v: Value, p: Path, w: Value, x: Value)
    requires Has(v, p)
    ensures Has(Set(v, p, w), p) && Set(Set(v, p, w), p, x) == Set(v, p, x)
  {
    GetSet(v, p, w);
    if p != [] {
      SetSet(Child(v, p[0]), p[1..], w, x);
      SetChildTwice(v, p[0], Set(Child(v, p[0]), p[1..], w), Set(Child(v, p[0]), p[1..], x));
    }
  }

  lemma SetChildTwice(v: Value, k: nat, w: Value, x: Value)
    requires k < ChildCount(v)
    ensures SetChild(SetChild(v, k, w), k, x) == SetChild(v, k, x)
  {
  }

  lemma {:induction false} OneBelow(v: Value, p: Path, k: nat, w: Value)
    requires Has(v, p) && k < ChildCount(Get(v, p))
    ensures Has(v, p + [k]) && Get(v, p + [k]) == Child(Get(v, p), k)
    ensures Set(v, p + [k], w) == Set(v, p, SetChild(Get(v, p), k, w))
  {
    if p == [] {
      assert p + [k] == [k] && [k][1..] == [];
    } else {
      assert (p + [k])[1..] == p[1..] + [k];
      OneBelow(Child(v, p[0]), p[1..], k, w);
    }
  }

  // ---------------------------------------------------------------- the state of the actions

  // The value built so far, the place that children are added to, and its ancestors, the root first.
  datatype State = State(value: Value, current: Pointer, stack: seq<Path>)

  // The pointers kept are to the proper ancestors of the place that grows, so adding there moves none of them.
  predicate Nested(s: State) {
    match s.current
    case Nowhere => s.stack == []
    case At(p) => Has(s.value, p) && |s.stack| == |p| && forall k :: 0 <= k < |p| ==> s.stack[k] == p[..k]
  }

  predicate Ready(s: State) {
    Nested(s) && (s.current.At? ==> Compound(Get(s.value, s.current.path)))
  }

  function Here(s: State): Value
    requires Ready(s) && s.current.At?
  {
    Get(s.value, s.current.path)
  }

  // With v in the place that grows.
  function WithHere(s: State, v: Value): State
    requires Ready(s) && s.current.At?
  {
    s.(value := Set(s.value, s.current.path, v))
  }

  lemma WithHereHas(s: State, v: Value)
    requires Ready(s) && s.current.At?
    ensures Nested(WithHere(s, v)) && Get(WithHere(s, v).value, s.current.path) == v
  {
    GetSet(s.value, s.current.path, v);
  }

  // A whole value added.
  function Plus(s: State, name: Text, v: Value): State
    requires Ready(s)
  {
    if s.current.Nowhere? then State(v, At([]), []) else WithHere(s, Added(Here(s), name, v))
  }

  function Opened(s: State, name: Text, empty: Value): State
    requires Ready(s)
  {
    if s.current.Nowhere? then State(empty, At([]), [])
    else
      State(Plus(s, name, empty).value, At(s.current.path + [ChildCount(Here(s))]), s.stack + [s.current.path])
  }

  function Closed(s: State): State
    requires Nested(s) && s.current.At?
  {
    if s.current.path == [] then s else s.(current := At(s.stack[|s.stack| - 1]), stack := s.stack[..|s.stack| - 1])
  }

  lemma OpenedReady(s: State, name: Text, empty: Value)
    requires Ready(s) && Compound(empty)
    ensures var o := Opened(s, name, empty); Ready(o) && o.current.At? && Here(o) == empty
  {
    if s.current.At? {
      var k, more := ChildCount(Here(s)), Added(Here(s), name, empty);
      WithHereHas(s, more);
      OneBelow(Plus(s, name, empty).value, s.current.path, k, empty);
    }
  }

  /** Opening a compound value, filling it and closing it adds the full value, and returns to where it was. */
  lemma OpenFillClose(s: State, name: Text, empty: Value, full: Value)
    requires Ready(s) && Compound(empty)
    ensures Ready(Opened(s, name, empty)) && Opened(s, name, empty).current.At?
    ensures var filled := WithHere(Opened(s, name, empty), full);
      Nested(filled) && filled.current.At? && Closed(filled) == Plus(s, name, full)
  {
    OpenedReady(s, name, empty);
    var o := Opened(s, name, empty);
    WithHereHas(o, full);
    if s.current.At? {
      var p, k, more := s.current.path, ChildCount(Here(s)), Added(Here(s), name, empty);
      WithHereHas(s, more);
      OneBelow(o.value, p, k, full);
      assert SetChild(more, k, full) == Added(Here(s), name, full);
      SetSet(s.value, p, more, Added(Here(s), name, full));
      assert (s.stack + [p])[..|s.stack|] == s.stack;
    }
  }

  lemma WithHereTwice(s: State, v: Value, w: Value)
    requires Ready(s) && s.current.At? && Compound(v)
    ensures Ready(WithHere(s, v)) && WithHere(WithHere(s, v), w) == WithHere(s, w)
  {
    WithHereHas(s, v);
    SetSet(s.value, s.current.path, v, w);
  }

  lemma {:induction false} SetSame(v: Value, p: Path)
    requires Has(v, p)
    ensures Set(v, p, Get(v, p)) == v
  {
    if p != [] {
      SetSame(Child(v, p[0]), p[1..]);
      assert SetChild(v, p[0], Child(v, p[0])) == v;
    }
  }
}
