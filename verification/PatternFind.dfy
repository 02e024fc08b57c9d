/** string.find and string.match: the search over start positions, and the plain-text short cut. */
module PatternFind {
  import opened PatternSpec
  import opened PatternMatch

  // ---------------------------------------------------------------- plain search

  predicate Occurs(src: seq<Byte>, p: seq<Byte>, k: nat) {
    k + |p| <= |src| && src[k..k + |p|] == p
  }

  // memchr on the n characters from k on; -1 if there is none.
  method MemChr(src: seq<Byte>, k: nat, n: nat, c: Byte) returns (r: int)
    requires k + n <= |src|
    ensures r == -1 || k <= r < k + n
    ensures r == -1 ==> forall i :: k <= i < k + n ==> src[i] != c
    ensures r != -1 ==> src[r] == c && forall i :: k <= i < r ==> src[i] != c
  {
    for i := k to k + n
      invariant forall j :: k <= j < i ==> src[j] != c
    {
      if src[i] == c {
        return i;
      }
    }
    return -1;
  }

  // The first occurrence of p at or behind `from`, -1 if there is none.
  method LMemFind(src: seq<Byte>, from: nat, p: seq<Byte>) returns (r: int)
    requires from <= |src|
    ensures r == -1 ==> forall k :: from <= k ==> !Occurs(src, p, k)
    ensures r != -1 ==> from <= r && Occurs(src, p, r) && forall k :: from <= k < r ==> !Occurs(src, p, k)
  {
    var l1 := |src| - from;
    if |p| == 0 {
      return from;
    } else if |p| > l1 {
      return -1;
    }
    var l2 := |p| - 1;
    l1 := l1 - l2;
    var s1 := from;
    while l1 > 0
      invariant from <= s1 && l1 >= 0 && s1 + l1 + l2 == |src|
      invariant forall k :: from <= k < s1 ==> !Occurs(src, p, k)
    {
      var init := MemChr(src, s1, l1, p[0]);
      if init == -1 {
        forall k | from <= k ensures !Occurs(src, p, k) {
          if s1 <= k < s1 + l1 {
            assert src[k] != p[0];
          }
        }
        return -1;
      }
      assert src[init..init + |p|] == [src[init]] + src[init + 1..init + 1 + l2];
      assert p == [p[0]] + p[1..];
      if src[init + 1..init + 1 + l2] == p[1..] {
        FirstCharDecides(src, p, s1, init);
        return init;
      }
      FirstCharDecides(src, p, s1, init);
      assert src[init + 1..init + 1 + l2] == src[init..init + |p|][1..];
      l1 := l1 - (init + 1 - s1);
      s1 := init + 1;
    }
    return -1;
  }

  lemma FirstCharDecides(src: seq<Byte>, p: seq<Byte>, lo: nat, hi: nat)
    requires p != [] && hi <= |src| && forall i :: lo <= i < hi ==> src[i] != p[0]
    ensures forall k :: lo <= k < hi ==> !Occurs(src, p, k)
  {
    forall k | lo <= k < hi ensures !Occurs(src, p, k) {
      assert k + |p| <= |src| ==> src[k..k + |p|][0] == src[k];
    }
  }

  // -------------------------------------------------- the short cut and patterns

  predicate IsSpecial(c: Byte) {
    c in {94, 36, 42, 43, 63, 46, 40, 91, 37, 45}
  }

  // strpbrk(p, SPECIALS) == NULL: no special character before the end or the first zero.
  predicate NoSpecials(p: seq<Byte>, i: nat)
    requires i <= |p|
    decreases |p| - i
  {
    Peek(p, i) == 0 || (!IsSpecial(p[i]) && NoSpecials(p, i + 1))
  }

  // Where the plain characters from i on end: at the end, a zero, or a closing parenthesis.
  function PlainEnd(p: seq<Byte>, i: nat): (k: nat)
    requires i <= |p|
    ensures i <= k <= |p|
    ensures k < |p| ==> p[k] == 0 || p[k] == 41
    ensures forall j :: i <= j < k ==> p[j] != 0 && p[j] != 41
    decreases |p| - i
  {
    if Peek(p, i) == 0 || p[i] == 41 then i else PlainEnd(p, i + 1)
  }

  // The first item of a pattern without special characters.
  lemma ParsePlain(p: seq<Byte>, i: nat)
    requires i < |p| && NoSpecials(p, i) && p[i] != 0
    ensures p[i] == 41 ==> Parse(p, i) == [Close] + Parse(p, i + 1)
    ensures p[i] != 41 ==> Parse(p, i) == [Single(Exactly(p[i]), Once)] + Parse(p, i + 1)
  {
    assert !IsSpecial(p[i]) && NoSpecials(p, i + 1);
    if p[i] != 41 {
      assert ClassEnd(p, i) == EndAt(i + 1) && ParseClass(p, i, i + 1) == Exactly(p[i]);
      assert i + 1 < |p| && p[i + 1] != 0 ==> !IsSpecial(p[i + 1]);
    }
  }

  // One item for each character.
  function Letters(q: seq<Byte>): seq<Item> {
    if q == [] then [] else [Single(Exactly(q[0]), Once)] + Letters(q[1..])
  }

  // A pattern without special characters is its own text up to its PlainEnd.
  lemma {:induction false} ParseLetters(p: seq<Byte>, i: nat)
    requires i <= |p| && NoSpecials(p, i)
    ensures var k := PlainEnd(p, i);
      Parse(p, i) == Letters(p[i..k]) + if k < |p| && p[k] == 41 then [Close] + Parse(p, k + 1) else []
    decreases |p| - i
  {
    var k := PlainEnd(p, i);
    if Peek(p, i) == 0 || p[i] == 41 {
      assert p[i..k] == [];
      if Peek(p, i) != 0 {
        ParsePlain(p, i);
      }
    } else {
      ParsePlain(p, i);
      ParseLetters(p, i + 1);
      assert p[i..k][1..] == p[i + 1..k];
    }
  }

  lemma OneCharacter(t: Subject, c: Byte, items: seq<Item>, s: nat, d: nat)
    requires s <= |t.src|
    ensures Results(t, [Single(Exactly(c), Once)] + items, s, [], d) ==
      if s < |t.src| && t.src[s] == c then Results(t, items, s + 1, [], d) else []
  {
    assert ([Single(Exactly(c), Once)] + items)[1..] == items;
  }

  // The items of a text match just that text.
  lemma {:induction false} LettersMatch(t: Subject, q: seq<Byte>, tail: seq<Item>, s: nat, d: nat)
    requires s <= |t.src|
    ensures Results(t, Letters(q) + tail, s, [], d) ==
      if Occurs(t.src, q, s) then Results(t, tail, s + |q|, [], d) else []
    decreases |q|
  {
    if q == [] {
      assert Letters(q) + tail == tail;
    } else {
      assert Letters(q) + tail == [Single(Exactly(q[0]), Once)] + (Letters(q[1..]) + tail);
      OneCharacter(t, q[0], Letters(q[1..]) + tail, s, d);
      assert q == [q[0]] + q[1..];
      OccursCons(t.src, q[0], q[1..], s);
      if s < |t.src| && t.src[s] == q[0] {
        LettersMatch(t, q[1..], tail, s + 1, d);
      }
    }
  }

  lemma LettersAndTail(t: Subject, q: seq<Byte>, tail: seq<Item>, s: nat, d: nat)
    requires s <= |t.src| && (tail == [] || tail[0] == Close)
    ensures Results(t, Letters(q) + tail, s, [], d) ==
      if !Occurs(t.src, q, s) then []
      else if tail == [] then [Match(s + |q|, [])]
      else [Raise(InvalidPattern)]
  {
    LettersMatch(t, q, tail, s, d);
  }

  // A pattern without special characters, up to its PlainEnd, matches just its own text there.
  lemma PlainResults(t: Subject, p: seq<Byte>, s: nat, d: nat)
    requires NoSpecials(p, 0) && s <= |t.src|
    ensures var k := PlainEnd(p, 0);
      Results(t, Parse(p, 0), s, [], d) ==
      if !Occurs(t.src, p[..k], s) then []
      else if k < |p| && p[k] == 41 then [Raise(InvalidPattern)]
      else [Match(s + k, [])]
  {
    var k := PlainEnd(p, 0);
    var tail := if k < |p| && p[k] == 41 then [Close] + Parse(p, k + 1) else [];
    hide Results;
    hide Parse;
    ParseLetters(p, 0);
    assert p[0..k] == p[..k];
    LettersAndTail(t, p[..k], tail, s, d);
  }

  lemma OccursCons(src: seq<Byte>, c: Byte, q: seq<Byte>, s: nat)
    requires s <= |src|
    ensures Occurs(src, [c] + q, s) <==> (s < |src| && src[s] == c && Occurs(src, q, s + 1))
  {
    if s + 1 + |q| <= |src| {
      assert src[s..s + 1 + |q|] == [src[s]] + src[s + 1..s + 1 + |q|];
      if src[s] == c && src[s + 1..s + 1 + |q|] == q {
        assert src[s..s + 1 + |q|] == [c] + q;
      }
      if src[s..s + 1 + |q|] == [c] + q {
        assert ([c] + q)[0] == c && ([c] + q)[1..] == q;
        assert src[s..s + 1 + |q|][1..] == src[s + 1..s + 1 + |q|];
      }
    }
  }

  // At position s the short cut and the pattern give the same answer.
  ghost predicate SameAnswer(t: Subject, p: seq<Byte>, s: nat)
    requires s <= |t.src|
  {
    Nested(t, Parse(p, 0), s, [], 0) == if Occurs(t.src, p, s) then [Match(s + |p|, [])] else []
  }

  // Taking the short cut for a text without special characters gives the pattern's own answer, at
  // every position of every subject ...
  lemma PlainAgrees(t: Subject, p: seq<Byte>, s: nat)
    requires NoSpecials(p, 0) && 0 !in p && 41 !in p && s <= |t.src|
    ensures SameAnswer(t, p, s)
  {
    PlainResults(t, p, s, 1);
    assert PlainEnd(p, 0) == |p| && p[..|p|] == p;
  }

  // ... if and only if it holds neither a zero character, which ends a pattern, nor a closing
  // parenthesis, which a pattern rejects; the set of special characters lists neither.
  lemma PlainExactly(p: seq<Byte>, isa: (Byte, CharKind) -> bool)
    requires NoSpecials(p, 0)
    ensures 0 !in p && 41 !in p <==> forall src, s: nat :: s <= |src| ==> SameAnswer(Subject(src, isa), p, s)
  {
    if 0 !in p && 41 !in p {
      forall src: seq<Byte>, s: nat | s <= |src| ensures SameAnswer(Subject(src, isa), p, s) {
        PlainAgrees(Subject(src, isa), p, s);
      }
    } else {
      var k := PlainEnd(p, 0);
      var t := Subject(p[..k], isa);
      PlainResults(t, p, 0, 1);
      assert t.src[0..k] == p[..k];
      assert !Occurs(t.src, p, 0);
      assert !SameAnswer(t, p, 0);
    }
  }

  // -------------------------------------------------------------------- captures

  // What a capture gives back: its text, or its position counted from 1.
  datatype Value = Text(text: seq<Byte>) | Position(pos: nat)

  datatype Pushed = Pushed(values: seq<Value>) | NotPushed(error: Error)

  function ValueOf(t: Subject, c: Capture): Value
    requires c.len != UNFINISHED && c.len >= POSITION && c.init + c.len <= |t.src|
  {
    if c.len == POSITION then Position(c.init + 1) else Text(t.src[c.init..c.init + c.len])
  }

  ghost predicate AllFinished(caps: seq<Capture>) {
    forall i :: 0 <= i < |caps| ==> caps[i].len != UNFINISHED
  }

  // ------------------------------------------------------------------ the search

  datatype Answer = Missing | Hit(start: nat, end: nat, values: seq<Value>) | Thrown(error: Error)

  // A relative position: negative counts back from the end.
  function PosRelat(pos: int, len: nat): nat {
    var pos := if pos < 0 then pos + len + 1 else pos;
    if pos >= 0 then pos else 0
  }

  // Where the search starts, counted from 0.
  function StartAt(pos: int, len: nat): nat {
    var init := PosRelat(pos, len) - 1;
    if init < 0 then 0 else if init > len then len else init
  }

  // Position 1 is the first character, -1 the last one; what lies outside is moved to the nearest end.
  lemma StartsThere(pos: int, len: nat)
    ensures StartAt(pos, len) ==
      if pos > len then len
      else if pos > 0 then pos - 1
      else if pos == 0 || pos < 0 - len then 0
      else len + pos
  {
  }

  // The outcomes at one start position.
  ghost function Try(t: Subject, items: seq<Item>, s: nat): seq<Outcome>
    requires s <= |t.src|
  {
    Nested(t, items, s, [], 0)
  }

  // The first start position with any outcome.
  ghost predicate FirstStart(t: Subject, items: seq<Item>, init: nat, anchor: bool, start: nat) {
    && init <= start <= |t.src| && (anchor ==> start == init)
    && (forall s :: init <= s < start ==> Try(t, items, s) == [])
    && Try(t, items, start) != []
  }

  // The values handed back for these captures.
  ghost predicate Handed(t: Subject, start: nat, end: nat, caps: seq<Capture>, whole: bool, values: seq<Value>) {
    start <= end <= |t.src| && AllFinished(caps) && Sound(caps, end) &&
    if caps == [] then values == (if whole then [Text(t.src[start..end])] else [])
    else |values| == |caps| && forall i :: 0 <= i < |caps| ==> IsValue(t, caps[i], values[i])
  }

  // The text between start and end of the capture, or the place where it stands, from 1 on.
  ghost predicate IsValue(t: Subject, c: Capture, v: Value) {
    match v
    case Text(x) => c.len >= 0 && c.init + c.len <= |t.src| && x == t.src[c.init..c.init + c.len]
    case Position(n) => c.len == -2 && n == c.init + 1
  }

  // push_captures: the values of all captures, or of the whole match if there are none and it is asked for.
  method PushCaptures(ms: MatchState, s: nat, e: nat, whole: bool) returns (r: Pushed)
    requires ms.Shaped() && s <= e <= |ms.t.src| && Sound(ms.Caps(), e)
    ensures r.NotPushed? <==> !AllFinished(ms.Caps())
    ensures r.NotPushed? ==> r.error == Unfinished
    ensures r.Pushed? ==> Handed(ms.t, s, e, ms.Caps(), whole, r.values)
  {
    if ms.level == 0 {
      return Pushed(if whole then [Text(ms.t.src[s..e])] else []);
    }
    var values: seq<Value> := [];
    for i := 0 to ms.level
      invariant |values| == i
      invariant forall j :: 0 <= j < i ==> ms.Caps()[j].len != UNFINISHED && values[j] == ValueOf(ms.t, ms.Caps()[j])
    {
      assert ms.capture[i] == ms.Caps()[i];
      if ms.capture[i].len == UNFINISHED {
        return NotPushed(Unfinished);
      }
      values := values + [ValueOf(ms.t, ms.capture[i])];
    }
    return Pushed(values);
  }

  // What the outcome at the deciding start position makes of the answer.
  ghost predicate Decided(t: Subject, o: Outcome, start: nat, whole: bool, a: Answer) {
    if o.Raise? then a == Thrown(o.error)
    else if !AllFinished(o.caps) then a == Thrown(Unfinished)
    else a.Hit? && a.start == start && a.end == o.end && Handed(t, start, o.end, o.caps, whole, a.values)
  }

  // The answer is decided at the first start position with any outcome, by its first outcome.
  ghost predicate FirstHit(t: Subject, items: seq<Item>, init: nat, anchor: bool, whole: bool, a: Answer) {
    if a.Missing? then forall s :: init <= s <= |t.src| && (anchor ==> s == init) ==> Try(t, items, s) == []
    else exists start ::
      FirstStart(t, items, init, anchor, start) && Decided(t, Try(t, items, start)[0], start, whole, a)
  }

  // The answer of a plain search.
  ghost predicate PlainHit(src: seq<Byte>, pat: seq<Byte>, init: nat, a: Answer) {
    if a.Missing? then forall k :: init <= k ==> !Occurs(src, pat, k)
    else (
      && a.Hit? && init <= a.start && Occurs(src, pat, a.start) && a.end == a.start + |pat| && a.values == []
      && (forall k :: init <= k < a.start ==> !Occurs(src, pat, k)))
  }

  // The pattern branch of str_find_aux.
  method Search(t: Subject, pat: seq<Byte>, init: nat, find: bool) returns (a: Answer)
    requires init <= |t.src|
    ensures var anchor := pat != [] && pat[0] == 94;
      FirstHit(t, Parse(pat, if anchor then 1 else 0), init, anchor, !find, a)
  {
    hide Parse, Nested, Handed;
    var anchor := pat != [] && pat[0] == 94;
    var p := if anchor then 1 else 0;
    ghost var items := Parse(pat, p);
    var ms := new MatchState(t, pat);
    var s1 := init;
    while true
      invariant init <= s1 <= |t.src| && (anchor ==> s1 == init)
      invariant ms.Shaped() && ms.t == t && ms.pat == pat && fresh(ms) && fresh(ms.capture)
      invariant forall s :: init <= s < s1 ==> Try(t, items, s) == []
      decreases |t.src| - s1
    {
      ms.level, ms.depth := 0, 0;
      assert ms.Caps() == [];
      var r := ms.DoMatch(s1, p, [], 0);
      if r.Failed? {
        assert FirstStart(t, items, init, anchor, s1);
        return Thrown(r.error);
      } else if r.Done? {
        var pushed := PushCaptures(ms, s1, r.end, !find);
        assert FirstStart(t, items, init, anchor, s1);
        if pushed.NotPushed? {
          return Thrown(pushed.error);
        }
        return Hit(s1, r.end, pushed.values);
      }
      if s1 >= |t.src| || anchor {
        return Missing;
      }
      s1 := s1 + 1;
    }
  }

  // str_find_aux. Positions in the answer are counted from 0, `end` is exclusive.
  method StrFindAux(t: Subject, pat: seq<Byte>, pos: int, plain: bool, find: bool) returns (a: Answer)
    ensures var init := StartAt(pos, |t.src|);
      if find && (plain || NoSpecials(pat, 0)) then
        PlainHit(t.src, pat, init, a)
      else
        var anchor := pat != [] && pat[0] == 94;
        FirstHit(t, Parse(pat, if anchor then 1 else 0), init, anchor, !find, a)
  {
    var init := StartAt(pos, |t.src|);
    if find && (plain || NoSpecials(pat, 0)) {
      var s2 := LMemFind(t.src, init, pat);
      a := if s2 == -1 then Missing else Hit(s2, s2 + |pat|, []);
    } else {
      a := Search(t, pat, init, find);
    }
  }

  // Where the short cut is exact, string.find answers as the pattern search would have.
  lemma ShortCutAnswers(t: Subject, pat: seq<Byte>, init: nat, a: Answer)
    requires NoSpecials(pat, 0) && 0 !in pat && 41 !in pat && init <= |t.src|
    requires PlainHit(t.src, pat, init, a)
    ensures FirstHit(t, Parse(pat, 0), init, false, false, a)
  {
    forall s | init <= s <= |t.src|
      ensures Try(t, Parse(pat, 0), s) == if Occurs(t.src, pat, s) then [Match(s + |pat|, [])] else []
    {
      PlainAgrees(t, pat, s);
    }
    if a.Hit? {
      assert FirstStart(t, Parse(pat, 0), init, false, a.start);
    }
  }
}
