/** json_spirit's reader: the semantic actions, the grammar that fires them, and read_string. */
module JsonReader {
  import opened JsonGrammar
  import JsonLayout
  import JsonSound
  import opened JsonText
  import opened JsonTree
  import opened JsonValue

  // ---------------------------------------------------------------- Semantic_actions

  class SemanticActions {
    var value: Value
    var current: Pointer
    var stack: seq<Path>
    var name: Text

    constructor (value: Value)
      ensures Now() == State(value, Nowhere, []) && Ready(Now())
    {
      this.value, current, stack, name := value, Nowhere, [], [];
    }

    ghost function Now(): State
      reads this
    {
      State(value, current, stack)
    }

    method NewName(t: Text)
      requires |t| >= 2
      modifies this`name
      ensures name == Unescaped(t[1..|t| - 1])
    {
      name := GetStr(t);
    }

    method NewStr(t: Text)
      requires |t| >= 2 && Ready(Now())
      modifies this
      ensures name == old(name) && Now() == Plus(old(Now()), name, Str(Unescaped(t[1..|t| - 1])))
    {
      var s := GetStr(t);
      NewValue(Str(s));
    }

    // new_true, new_false, new_null, new_int and new_uint64.
    method NewValue(v: Value)
      requires Ready(Now())
      modifies this
      ensures name == old(name) && Now() == Plus(old(Now()), name, v)
    {
      var _ := AddToCurrent(v);
    }

    method AddFirst(v: Value) returns (p: Path)
      requires current.Nowhere?
      modifies this
      ensures name == old(name) && stack == old(stack) && value == v && current == At([]) && p == []
    {
      value := v;
      current := At([]);
      p := [];
    }

    method AddToCurrent(v: Value) returns (p: Path)
      requires Ready(Now())
      modifies this
      ensures name == old(name) && Now() == Plus(old(Now()), name, v)
      ensures p == if old(current).Nowhere? then [] else old(current).path + [ChildCount(old(Here(Now())))]
    {
      if current.Nowhere? {
        p := AddFirst(v);
      } else {
        var here := Get(value, current.path);
        value := Set(value, current.path, Added(here, name, v));
        p := current.path + [ChildCount(here)];
      }
    }

    method BeginCompound(empty: Value)
      requires Ready(Now()) && Compound(empty)
      modifies this
      ensures name == old(name) && Now() == Opened(old(Now()), name, empty)
    {
      if current.Nowhere? {
        var _ := AddFirst(empty);
      } else {
        var parent := current.path;
        var p := AddToCurrent(empty);
        stack := stack + [parent];
        current := At(p);
      }
    }

    method EndCompound()
      requires Nested(Now()) && current.At?
      modifies this
      ensures name == old(name) && Now() == Closed(old(Now()))
    {
      if current.path != [] {
        current := At(stack[|stack| - 1]);
        stack := stack[..|stack| - 1];
      }
    }
  }

  method GetStr(t: Text) returns (s: Text)
    requires |t| >= 2
    ensures s == Unescaped(t[1..|t| - 1])
  {
    s := SubstituteEscChars(t[1..|t| - 1]);
  }

  // ---------------------------------------------------------------- scanning

  // Where a rule got to.
  datatype Hit = Hit(next: nat) | Miss | Thrown(reason: Reason)

  // The rule, started at i, did what it should have.
  ghost predicate Tells<T>(h: Hit, t: Text, i: nat, o: Outcome<T>)
    requires i <= |t|
  {
    match o
    case Match(_, rest) => h.Hit? && i <= h.next <= |t| && t[h.next..] == rest
    case NoMatch => h == Miss
    case Throw(reason) => h == Thrown(reason)
  }

  lemma {:induction false} SkipSuffix(s: Text)
    ensures s[|s| - |Skip(s)|..] == Skip(s)
  {
    if s != [] && IsSpace(s[0]) {
      SkipSuffix(s[1..]);
    }
  }

  method SkipSpace(t: Text, i: nat) returns (k: nat)
    requires i <= |t|
    ensures i <= k <= |t| && t[k..] == Skip(t[i..])
  {
    SkipSuffix(t[i..]);
    k := |t| - |Skip(t[i..])|;
  }

  method ReadQuoted(t: Text, i: nat) returns (h: Hit)
    requires i <= |t|
    ensures Tells(h, t, i, StringRule(t[i..]))
    ensures h.Hit? ==> h.next >= i + 2 && StringRule(t[i..]).value == Unescaped(t[i..h.next][1..h.next - i - 1])
  {
    hide Unescaped;
    var s := t[i..];
    match StringRule(s)
    case Match(_, rest) =>
      h := Hit(|t| - |rest|);
      ghost var n := BodyLength(s[1..]);
      assert h.next == i + n + 2 && t[i..h.next] == s[..n + 2];
      assert s[..n + 2][1..n + 1] == s[1..n + 1];
    case NoMatch => h := Miss;
  }

  method ReadNumber(t: Text, i: nat) returns (h: Hit, v: Value)
    requires i <= |t|
    ensures Tells(h, t, i, NumberRule(t[i..])) && (h.Hit? ==> v == NumberRule(t[i..]).value)
  {
    match NumberRule(t[i..])
    case Match(w, rest) => h, v := Hit(|t| - |rest|), w;
    case NoMatch => h, v := Miss, Null;
    case Throw(reason) => h, v := Thrown(reason), Null;
  }

  method ReadWord(t: Text, i: nat) returns (h: Hit, v: Value)
    requires i <= |t|
    ensures Tells(h, t, i, WordRule(t[i..])) && (h.Hit? ==> v == WordRule(t[i..]).value)
  {
    match WordRule(t[i..])
    case Match(w, rest) => h, v := Hit(|t| - |rest|), w;
    case NoMatch => h, v := Miss, Null;
  }

  // ---------------------------------------------------------------- the grammar with its actions

  method ReadValue(a: SemanticActions, t: Text, start: nat) returns (h: Hit)
    requires start <= |t| && Ready(a.Now())
    modifies a
    ensures Tells(h, t, start, ValueRule(t[start..]))
    ensures h.Hit? ==> a.Now() == Plus(old(a.Now()), old(a.name), ValueRule(t[start..]).value)
    ensures h.Miss? ==> a.Now() == old(a.Now()) && a.name == old(a.name)
    decreases |t| - start, 2
  {
    hide Skip, StringRule, NumberRule, WordRule, ObjectRule, ArrayRule, Plus, Nested;
    var i := SkipSpace(t, start);
    h := ReadQuoted(t, i);
    if h.Hit? {
      a.NewStr(t[i..h.next]);
      return;
    }
    var v;
    h, v := ReadNumber(t, i);
    if h.Hit? {
      a.NewValue(v);
    } else if h.Miss? {
      if i < |t| && t[i] == '{' {
        h := ReadObject(a, t, i);
      } else if i < |t| && t[i] == '[' {
        h := ReadArray(a, t, i);
      } else {
        h, v := ReadWord(t, i);
        if h.Hit? {
          a.NewValue(v);
        }
      }
    }
  }

  // The closing bracket, with the action that ends the compound value.
  method ReadClose(a: SemanticActions, t: Text, i: nat, bracket: Char, reason: Reason, ghost v: Value) returns (h: Hit)
    requires i <= |t| && Nested(a.Now()) && a.current.At?
    modifies a
    ensures Tells(h, t, i, Close(bracket, v, t[i..], reason))
    ensures h.Hit? ==> a.Now() == Closed(old(a.Now()))
  {
    hide Skip, Closed, Nested;
    var k := SkipSpace(t, i);
    if k < |t| && t[k] == bracket {
      a.EndCompound();
      assert t[k..][1..] == t[k + 1..];
      h := Hit(k + 1);
    } else {
      h := Thrown(reason);
    }
  }

  method ReadArray(a: SemanticActions, t: Text, i: nat) returns (h: Hit)
    requires i < |t| && t[i] == '[' && Ready(a.Now())
    modifies a
    ensures Tells(h, t, i, ArrayRule(t[i..]))
    ensures h.Hit? ==> a.Now() == Plus(old(a.Now()), old(a.name), ArrayRule(t[i..]).value)
    decreases |t| - i, 1
  {
    hide ElementsRule, Close, Plus, Opened, Closed, WithHere, Nested, Here;
    ghost var before, name := a.Now(), a.name;
    assert t[i..][1..] == t[i + 1..];
    OpenedReady(before, name, Array([]));
    a.BeginCompound(Array([]));
    h := ReadElements(a, t, i + 1);
    if h.Hit? {
      ghost var vs := ElementsRule(t[i + 1..]).value;
      OpenFillClose(before, name, Array([]), Array(vs));
      assert [] + vs == vs;
      h := ReadClose(a, t, h.next, ']', NotAnArray, Array(vs));
    } else if h.Miss? {
      OpenFillClose(before, name, Array([]), Array([]));
      WithHereSame(a.Now());
      h := ReadClose(a, t, i + 1, ']', NotAnArray, Array([]));
    }
  }

  lemma WithHereSame(s: State)
    requires Ready(s) && s.current.At?
    ensures WithHere(s, Here(s)) == s
  {
    SetSame(s.value, s.current.path);
  }

  // With these elements behind those the array has, with these members behind those of the object.
  ghost function PlusItems(s: State, vs: seq<Value>): State
    requires Ready(s) && s.current.At? && Here(s).Array?
  {
    WithHere(s, Array(Here(s).items + vs))
  }

  ghost function PlusMembers(s: State, ms: seq<Member>): State
    requires Ready(s) && s.current.At? && Here(s).Object?
  {
    WithHere(s, Object(Here(s).members + ms))
  }

  lemma ItemsGrow(s: State, name: Text, v: Value, vs: seq<Value>)
    requires Ready(s) && s.current.At? && Here(s).Array?
    ensures PlusItems(s, []) == s
    ensures var s' := Plus(s, name, v);
      Ready(s') && s'.current == s.current && Here(s').Array? && PlusItems(s', vs) == PlusItems(s, [v] + vs)
  {
    hide Nested;
    var w := Array(Here(s).items + [v]);
    WithHereHas(s, w);
    WithHereTwice(s, w, Array(w.items + vs));
    WithHereSame(s);
    assert Here(s).items + [] == Here(s).items;
    assert w.items + vs == Here(s).items + ([v] + vs);
  }

  lemma MembersGrow(s: State, m: Member, ms: seq<Member>)
    requires Ready(s) && s.current.At? && Here(s).Object?
    ensures PlusMembers(s, []) == s
    ensures var s' := Plus(s, m.name, m.value);
      Ready(s') && s'.current == s.current && Here(s').Object? && PlusMembers(s', ms) == PlusMembers(s, [m] + ms)
  {
    hide Nested;
    var w := Object(Here(s).members + [m]);
    WithHereHas(s, w);
    WithHereTwice(s, w, Object(w.members + ms));
    WithHereSame(s);
    assert Here(s).members + [] == Here(s).members;
    assert w.members + ms == Here(s).members + ([m] + ms);
  }

  method ReadElements(a: SemanticActions, t: Text, i: nat) returns (h: Hit)
    requires i <= |t| && Ready(a.Now()) && a.current.At? && Here(a.Now()).Array?
    modifies a
    ensures Tells(h, t, i, ElementsRule(t[i..]))
    ensures h.Hit? ==> a.Now() == PlusItems(old(a.Now()), ElementsRule(t[i..]).value)
    ensures h.Miss? ==> a.Now() == old(a.Now())
    decreases |t| - i, 3
  {
    hide ValueRule, MoreElements, Nested, Here, WithHere, PlusItems, Plus, Ready;
    ghost var before, name := a.Now(), a.name;
    h := ReadValue(a, t, i);
    if h.Hit? {
      ghost var v, rest := ValueRule(t[i..]).value, MoreElements(t[h.next..]);
      ItemsGrow(before, name, v, if rest.Match? then rest.value else []);
      h := ReadMoreElements(a, t, h.next);
    }
  }

  method ReadMoreElements(a: SemanticActions, t: Text, i: nat) returns (h: Hit)
    requires i <= |t| && Ready(a.Now()) && a.current.At? && Here(a.Now()).Array?
    modifies a
    ensures Tells(h, t, i, MoreElements(t[i..]))
    ensures h.Hit? ==> a.Now() == PlusItems(old(a.Now()), MoreElements(t[i..]).value)
    decreases |t| - i, 0
  {
    hide ValueRule, Nested, Here, WithHere, PlusItems, Plus, Ready, Skip;
    ghost var before, name := a.Now(), a.name;
    ItemsGrow(before, name, Null, []);
    var k := SkipSpace(t, i);
    if k == |t| || t[k] != ',' {
      return Hit(i);
    }
    assert t[k..][1..] == t[k + 1..];
    h := ReadValue(a, t, k + 1);
    if h.Miss? {
      return Hit(i);
    } else if h.Hit? {
      ghost var v, rest := ValueRule(t[k + 1..]).value, MoreElements(t[h.next..]);
      ItemsGrow(before, name, v, if rest.Match? then rest.value else []);
      h := ReadMoreElements(a, t, h.next);
    }
  }

  method ReadObject(a: SemanticActions, t: Text, i: nat) returns (h: Hit)
    requires i < |t| && t[i] == '{' && Ready(a.Now())
    modifies a
    ensures Tells(h, t, i, ObjectRule(t[i..]))
    ensures h.Hit? ==> a.Now() == Plus(old(a.Now()), old(a.name), ObjectRule(t[i..]).value)
    decreases |t| - i, 1
  {
    hide MembersRule, Close, Plus, Opened, Closed, WithHere, Nested, Here;
    ghost var before, name := a.Now(), a.name;
    assert t[i..][1..] == t[i + 1..];
    OpenedReady(before, name, Object([]));
    a.BeginCompound(Object([]));
    h := ReadMembers(a, t, i + 1);
    if h.Hit? {
      ghost var ms := MembersRule(t[i + 1..]).value;
      OpenFillClose(before, name, Object([]), Object(ms));
      assert [] + ms == ms;
      h := ReadClose(a, t, h.next, '}', NotAnObject, Object(ms));
    } else if h.Miss? {
      OpenFillClose(before, name, Object([]), Object([]));
      WithHereSame(a.Now());
      h := ReadClose(a, t, i + 1, '}', NotAnObject, Object([]));
    }
  }

  method ReadPair(a: SemanticActions, t: Text, start: nat) returns (h: Hit)
    requires start <= |t| && Ready(a.Now()) && a.current.At? && Here(a.Now()).Object?
    modifies a
    ensures Tells(h, t, start, PairRule(t[start..]))
    ensures h.Hit? ==> var m := PairRule(t[start..]).value; a.Now() == Plus(old(a.Now()), m.name, m.value)
    ensures h.Miss? ==> a.Now() == old(a.Now())
    decreases |t| - start, 3
  {
    hide StringRule, ValueRule, Nested, Here, WithHere, Plus, Ready, Skip;
    var i := SkipSpace(t, start);
    h := ReadQuoted(t, i);
    if h.Hit? {
      a.NewName(t[i..h.next]);
      var k := SkipSpace(t, h.next);
      if k == |t| || t[k] != ':' {
        return Thrown(NoColon);
      }
      assert t[k..][1..] == t[k + 1..];
      h := ReadValue(a, t, k + 1);
      if h.Miss? {
        h := Thrown(NotAValue);
      }
    }
  }

  method ReadMembers(a: SemanticActions, t: Text, i: nat) returns (h: Hit)
    requires i <= |t| && Ready(a.Now()) && a.current.At? && Here(a.Now()).Object?
    modifies a
    ensures Tells(h, t, i, MembersRule(t[i..]))
    ensures h.Hit? ==> a.Now() == PlusMembers(old(a.Now()), MembersRule(t[i..]).value)
    ensures h.Miss? ==> a.Now() == old(a.Now())
    decreases |t| - i, 4
  {
    hide PairRule, MoreMembers, Nested, Here, WithHere, PlusMembers, Plus, Ready;
    ghost var before := a.Now();
    h := ReadPair(a, t, i);
    if h.Hit? {
      ghost var m, rest := PairRule(t[i..]).value, MoreMembers(t[h.next..]);
      MembersGrow(before, m, if rest.Match? then rest.value else []);
      h := ReadMoreMembers(a, t, h.next);
    }
  }

  method ReadMoreMembers(a: SemanticActions, t: Text, i: nat) returns (h: Hit)
    requires i <= |t| && Ready(a.Now()) && a.current.At? && Here(a.Now()).Object?
    modifies a
    ensures Tells(h, t, i, MoreMembers(t[i..]))
    ensures h.Hit? ==> a.Now() == PlusMembers(old(a.Now()), MoreMembers(t[i..]).value)
    decreases |t| - i, 0
  {
    hide PairRule, Nested, Here, WithHere, PlusMembers, Plus, Ready, Skip;
    ghost var before := a.Now();
    MembersGrow(before, Member([], Null), []);
    var k := SkipSpace(t, i);
    if k == |t| || t[k] != ',' {
      return Hit(i);
    }
    assert t[k..][1..] == t[k + 1..];
    h := ReadPair(a, t, k + 1);
    if h.Miss? {
      return Hit(i);
    } else if h.Hit? {
      ghost var m, rest := PairRule(t[k + 1..]).value, MoreMembers(t[h.next..]);
      MembersGrow(before, m, if rest.Match? then rest.value else []);
      h := ReadMoreMembers(a, t, h.next);
    }
  }

  // ---------------------------------------------------------------- read_range_or_throw and read_string

  // The text needs to start with a value: what follows it is left alone.
  method ReadRangeOrThrow(t: Text, value: Value) returns (h: Hit, v: Value)
    ensures Tells(h, t, 0, JsonRule(t)) && (h.Hit? ==> v == JsonRule(t).value)
  {
    hide ValueRule;
    var a := new SemanticActions(value);
    assert t[0..] == t;
    h := ReadValue(a, t, 0);
    if h.Miss? {
      h := Thrown(NotAValue);
    }
    v := a.value;
  }

  method ReadString(t: Text, value: Value) returns (ok: bool, v: Value)
    ensures ok == JsonRule(t).Match? && (ok ==> v == JsonRule(t).value)
    ensures ok <==> exists l :: JsonLayout.Spells(t, l)
    ensures forall l :: JsonLayout.Spells(t, l) ==> v == JsonLayout.LayoutMeans(l)
  {
    hide JsonLayout.LayoutMeans, ValueRule;
    var h;
    h, v := ReadRangeOrThrow(t, value);
    ok := h.Hit?;
    JsonSound.ReadExactly(t);
  }
}
