/**
 What each form of a pattern means, byte by byte: which characters an item stands for, how often it is
 taken, and what captures, balances, frontiers and anchors do.
 */
module PatternLaws {
  import opened PatternSpec

  // 200 calls may be under way.
  lemma CallsNest(t: Subject, pat: seq<Byte>, p: nat, s: nat, caps: seq<Capture>, d: nat)
    requires p <= |pat| && s <= |t.src| && Sound(caps, s) && |caps| <= MAX_CAPTURES
    ensures Called(t, pat, p, s, caps, d) ==
      if d >= 200 then [Raise(TooComplex)] else Here(t, pat, p, s, caps, d + 1)
  {
  }

  // ---------------------------------------------------------------- what an item stands for

  // A member of a set: a character, a range with a hyphen, or % and a letter.
  datatype Member = One(c: Byte) | Span(lo: Byte, hi: Byte) | Kind(letter: Byte)

  // A dot, a character that stands for itself, % and a character, or a set in brackets.
  datatype Atom = Dot | Letter(c: Byte) | Percent(letter: Byte) | Set(negated: bool, ms: seq<Member>)

  function MemberText(m: Member): (text: seq<Byte>)
    ensures text != []
  {
    match m
    case One(c) => [c]
    case Span(lo, hi) => [lo, 45, hi]
    case Kind(letter) => [37, letter]
  }

  function MembersText(ms: seq<Member>): seq<Byte> {
    if ms == [] then [] else MemberText(ms[0]) + MembersText(ms[1..])
  }

  function AtomText(a: Atom): (text: seq<Byte>)
    ensures text != []
  {
    match a
    case Dot => [46]
    case Letter(c) => [c]
    case Percent(letter) => [37, letter]
    case Set(negated, ms) => [91] + (if negated then [94] else []) + MembersText(ms) + [93]
  }

  // The first member may be a closing bracket; a hyphen behind a character starts a range, unless it is last.
  predicate MemberOk(m: Member, first: bool) {
    match m
    case One(c) => c != 0 && c != 37 && (c == 93 ==> first)
    case Span(lo, hi) => lo != 0 && lo != 37 && (lo == 93 ==> first) && hi != 0 && hi != 37 && hi != 93
    case Kind(letter) => letter != 0
  }

  predicate MembersOk(ms: seq<Member>, first: bool) {
    ms == [] || (
      && MemberOk(ms[0], first) && MembersOk(ms[1..], false)
      && (ms[0].One? && |ms| > 1 && MemberText(ms[1])[0] == 45 ==> ms[1..] == [One(45)]))
  }

  // The characters that are no items of their own: the end, parentheses, %, brackets.
  predicate AtomOk(a: Atom) {
    match a
    case Dot => true
    case Letter(c) => c != 0 && c != 37 && c != 40 && c != 41 && c != 46 && c != 91
    case Percent(letter) => letter != 0 && letter != 98 && letter != 102 && !(48 <= letter <= 57)
    case Set(negated, ms) => ms != [] && MembersOk(ms, true) && (negated || MemberText(ms[0])[0] != 94)
  }

  // %a and so on; the upper-case letter is the complement of the lower-case one.
  predicate LetterAdmits(t: Subject, letter: Byte, c: Byte) {
    if letter == 97 then t.isa(c, Alpha) else if letter == 65 then !t.isa(c, Alpha)
    else if letter == 99 then t.isa(c, Cntrl) else if letter == 67 then !t.isa(c, Cntrl)
    else if letter == 100 then t.isa(c, CharKind.Digit) else if letter == 68 then !t.isa(c, CharKind.Digit)
    else if letter == 103 then t.isa(c, Graph) else if letter == 71 then !t.isa(c, Graph)
    else if letter == 108 then t.isa(c, Lower) else if letter == 76 then !t.isa(c, Lower)
    else if letter == 112 then t.isa(c, Punct) else if letter == 80 then !t.isa(c, Punct)
    else if letter == 115 then t.isa(c, Space) else if letter == 83 then !t.isa(c, Space)
    else if letter == 117 then t.isa(c, Upper) else if letter == 85 then !t.isa(c, Upper)
    else if letter == 119 then t.isa(c, Alnum) else if letter == 87 then !t.isa(c, Alnum)
    else if letter == 120 then t.isa(c, XDigit) else if letter == 88 then !t.isa(c, XDigit)
    else if letter == 122 then c == 0 else if letter == 90 then c != 0
    else c == letter
  }

  predicate MemberAdmits(t: Subject, m: Member, c: Byte) {
    match m
    case One(d) => c == d
    case Span(lo, hi) => lo <= c <= hi
    case Kind(letter) => LetterAdmits(t, letter, c)
  }

  predicate AtomAdmits(t: Subject, a: Atom, c: Byte) {
    match a
    case Dot => true
    case Letter(d) => c == d
    case Percent(letter) => LetterAdmits(t, letter, c)
    case Set(negated, ms) => (exists i :: 0 <= i < |ms| && MemberAdmits(t, ms[i], c)) != negated
  }

  // The atom stands in the pattern from p to e, as an item: a $ at the end is none.
  predicate AtomAt(pat: seq<Byte>, p: nat, e: nat, a: Atom) {
    && AtomOk(a) && e == p + |AtomText(a)| <= |pat| && pat[p..e] == AtomText(a)
    && !(a == Letter(36) && (e == |pat| || pat[e] == 0))
  }

  lemma LetterMeans(t: Subject, letter: Byte, c: Byte)
    ensures ClassHas(t, letter, c) == LetterAdmits(t, letter, c)
  {
  }

  function ElemOf(m: Member): SetElem {
    match m
    case One(c) => Char(c)
    case Span(lo, hi) => Range(lo, hi)
    case Kind(letter) => Class(letter)
  }

  function ElemsOf(ms: seq<Member>): (es: seq<SetElem>)
    ensures |es| == |ms| && forall i :: 0 <= i < |ms| ==> es[i] == ElemOf(ms[i])
  {
    if ms == [] then [] else [ElemOf(ms[0])] + ElemsOf(ms[1..])
  }

  lemma ElemMeans(t: Subject, m: Member, c: Byte)
    ensures ElemHas(t, ElemOf(m), c) == MemberAdmits(t, m, c)
  {
    hide ClassHas, LetterAdmits;
    if m.Kind? {
      LetterMeans(t, m.letter, c);
    }
  }

  // A text that stands at i.
  predicate TextAt(pat: seq<Byte>, i: nat, text: seq<Byte>) {
    i + |text| <= |pat| && pat[i..i + |text|] == text
  }

  lemma TextByte(pat: seq<Byte>, i: nat, text: seq<Byte>, k: nat)
    requires TextAt(pat, i, text) && k < |text|
    ensures pat[i + k] == text[k]
  {
    assert pat[i..i + |text|][k] == pat[i + k];
  }

  lemma TextSplit(pat: seq<Byte>, i: nat, a: seq<Byte>, b: seq<Byte>)
    requires TextAt(pat, i, a + b)
    ensures TextAt(pat, i, a) && TextAt(pat, i + |a|, b)
  {
    assert pat[i..i + |a|] == pat[i..i + |a + b|][..|a|];
    assert pat[i + |a|..i + |a| + |b|] == pat[i..i + |a + b|][|a|..];
  }

  // The members of a set whose text starts behind i and ends before the bracket at ec.
  lemma {:induction false} MembersParsed(pat: seq<Byte>, i: nat, ec: nat, ms: seq<Member>, first: bool)
    requires MembersOk(ms, first) && TextAt(pat, i + 1, MembersText(ms)) && ec == i + 1 + |MembersText(ms)| < |pat|
    requires pat[ec] == 93
    ensures ParseElems(pat, i, ec) == ElemsOf(ms)
    decreases |ms|
  {
    if ms != [] {
      var m, w := ms[0], |MemberText(ms[0])|;
      TextSplit(pat, i + 1, MemberText(m), MembersText(ms[1..]));
      TextByte(pat, i + 1, MemberText(m), 0);
      MembersParsed(pat, i + w, ec, ms[1..], false);
      match m
      case One(c) =>
        if |ms| > 1 {
          TextSplit(pat, i + 2, MemberText(ms[1]), MembersText(ms[2..]));
          TextByte(pat, i + 2, MemberText(ms[1]), 0);
        }
      case Span(lo, hi) =>
        TextByte(pat, i + 1, MemberText(m), 1);
        TextByte(pat, i + 1, MemberText(m), 2);
      case Kind(letter) =>
        TextByte(pat, i + 1, MemberText(m), 1);
    }
  }

  // One step of the search for the closing bracket.
  lemma BracketStep(pat: seq<Byte>, j: nat)
    requires j < |pat| && pat[j] != 0 && pat[j] != 37
    ensures BracketEnd(pat, j) == if Peek(pat, j + 1) == 93 then EndAt(j + 2) else BracketEnd(pat, j + 1)
  {
  }

  // The search passes a member, unless a closing bracket is behind it.
  lemma MemberPassed(pat: seq<Byte>, j: nat, m: Member, first: bool)
    requires MemberOk(m, first) && TextAt(pat, j, MemberText(m))
    ensures var k := j + |MemberText(m)|;
      BracketEnd(pat, j) == if Peek(pat, k) == 93 then EndAt(k + 1) else BracketEnd(pat, k)
  {
    hide BracketEnd;
    TextByte(pat, j, MemberText(m), 0);
    match m {
      case One(c) =>
        BracketStep(pat, j);
      case Span(lo, hi) =>
        TextByte(pat, j, MemberText(m), 1);
        TextByte(pat, j, MemberText(m), 2);
        BracketStep(pat, j);
        BracketStep(pat, j + 1);
        BracketStep(pat, j + 2);
      case Kind(letter) =>
        TextByte(pat, j, MemberText(m), 1);
        BracketEscape(pat, j);
    }
  }

  lemma {:induction false} MembersEnd(pat: seq<Byte>, j: nat, ms: seq<Member>, first: bool)
    requires ms != [] && MembersOk(ms, first) && TextAt(pat, j, MembersText(ms))
    requires j + |MembersText(ms)| < |pat| && pat[j + |MembersText(ms)|] == 93
    ensures BracketEnd(pat, j) == EndAt(j + |MembersText(ms)| + 1)
    decreases |ms|
  {
    hide BracketEnd, TextAt, MemberText;
    var more := MembersText(ms[1..]);
    var k := j + |MemberText(ms[0])|;
    TextSplit(pat, j, MemberText(ms[0]), more);
    MemberPassed(pat, j, ms[0], first);
    if |ms| == 1 {
      assert more == [];
    } else {
      FirstMember(ms[1..]);
      TextByte(pat, k, more, 0);
      LaterMember(ms[1..]);
      MembersEnd(pat, k, ms[1..], false);
    }
  }

  lemma LaterMember(ms: seq<Member>)
    requires ms != [] && MembersOk(ms, false)
    ensures MemberText(ms[0])[0] != 93
  {
  }

  lemma BracketEscape(pat: seq<Byte>, j: nat)
    requires j + 1 < |pat| && pat[j] == 37 && pat[j + 1] != 0
    ensures BracketEnd(pat, j) == if Peek(pat, j + 2) == 93 then EndAt(j + 3) else BracketEnd(pat, j + 2)
  {
  }

  // The parts of a set: the bracket, ^ if it is negated, the members, and the bracket at the end.
  lemma SetParts(pat: seq<Byte>, p: nat, e: nat, negated: bool, ms: seq<Member>)
    requires AtomAt(pat, p, e, Set(negated, ms))
    ensures var q := if negated then p + 2 else p + 1;
      && TextAt(pat, q, MembersText(ms)) && q + |MembersText(ms)| + 1 == e <= |pat| && q < e - 1
      && pat[p] == 91 && pat[e - 1] == 93 && (negated <==> pat[p + 1] == 94)
  {
    hide TextAt, MembersOk, MembersText;
    var text := MembersText(ms);
    var sign := if negated then [94] else [];
    var q := if negated then p + 2 else p + 1;
    assert AtomText(Set(negated, ms)) == [91] + (sign + (text + [93]));
    assert TextAt(pat, p, AtomText(Set(negated, ms))) by { AtomThere(pat, p, e, Set(negated, ms)); }
    TextSplit(pat, p, [91], sign + (text + [93]));
    TextSplit(pat, p + 1, sign, text + [93]);
    TextSplit(pat, q, text, [93]);
    TextByte(pat, p, [91], 0);
    TextByte(pat, e - 1, [93], 0);
    FirstMember(ms);
    TextByte(pat, q, text, 0);
    if negated {
      TextByte(pat, p + 1, [94], 0);
    }
  }

  lemma AtomThere(pat: seq<Byte>, p: nat, e: nat, a: Atom)
    requires AtomAt(pat, p, e, a)
    ensures TextAt(pat, p, AtomText(a))
  {
  }

  lemma FirstMember(ms: seq<Member>)
    requires ms != []
    ensures MembersText(ms) != [] && MembersText(ms)[0] == MemberText(ms[0])[0]
  {
  }

  lemma SetParsed(pat: seq<Byte>, p: nat, e: nat, negated: bool, ms: seq<Member>)
    requires AtomAt(pat, p, e, Set(negated, ms))
    ensures pat[p] == 91 && ClassEnd(pat, p) == EndAt(e) && ParseClass(pat, p, e) == OneOf(ElemsOf(ms), negated)
  {
    hide BracketEnd, ParseElems, TextAt, MembersOk, MembersText, AtomText;
    SetParts(pat, p, e, negated, ms);
    var q := if negated then p + 2 else p + 1;
    MembersEnd(pat, q, ms, true);
    MembersParsed(pat, q - 1, e - 1, ms, true);
  }

  // An atom is read as one class, that admits what the atom does.
  lemma AtomParsed(t: Subject, pat: seq<Byte>, p: nat, e: nat, a: Atom)
    requires AtomAt(pat, p, e, a)
    ensures ClassEnd(pat, p) == EndAt(e) && Parse(pat, p) == ParseSingle(pat, p)
    ensures forall c :: Has(t, ParseClass(pat, p, e), c) == AtomAdmits(t, a, c)
  {
    hide BracketEnd, ParseElems, ParseSingle, ClassHas, LetterAdmits, MembersText;
    TextByte(pat, p, AtomText(a), 0);
    match a
    case Dot =>
    case Letter(c) =>
    case Percent(letter) =>
      TextByte(pat, p, AtomText(a), 1);
      forall c {
        LetterMeans(t, letter, c);
      }
    case Set(negated, ms) =>
      SetParsed(pat, p, e, negated, ms);
      forall c ensures SetHas(t, ElemsOf(ms), c) == exists i :: 0 <= i < |ms| && MemberAdmits(t, ms[i], c) {
        SetMeans(t, ms, c);
      }
  }

  lemma SetMeans(t: Subject, ms: seq<Member>, c: Byte)
    ensures SetHas(t, ElemsOf(ms), c) == exists i :: 0 <= i < |ms| && MemberAdmits(t, ms[i], c)
  {
    hide ElemHas, MemberAdmits;
    forall i | 0 <= i < |ms| ensures ElemHas(t, ElemsOf(ms)[i], c) == MemberAdmits(t, ms[i], c) {
      ElemMeans(t, ms[i], c);
    }
    if SetHas(t, ElemsOf(ms), c) {
      var i :| 0 <= i < |ElemsOf(ms)| && ElemHas(t, ElemsOf(ms)[i], c);
      assert MemberAdmits(t, ms[i], c);
    }
    if i :| 0 <= i < |ms| && MemberAdmits(t, ms[i], c) {
      assert ElemHas(t, ElemsOf(ms)[i], c);
    }
  }

  // ---------------------------------------------------------------- how often it is taken

  // The longest run of characters from s on that the atom admits.
  ghost predicate LongestRun(t: Subject, a: Atom, s: nat, n: nat) {
    && s + n <= |t.src| && (forall k :: s <= k < s + n ==> AtomAdmits(t, a, t.src[k]))
    && (s + n < |t.src| ==> !AtomAdmits(t, a, t.src[s + n]))
  }

  // The atom with this character behind it.
  predicate Suffixed(pat: seq<Byte>, p: nat, e: nat, a: Atom, suffix: Byte) {
    AtomAt(pat, p, e, a) && e < |pat| && pat[e] == suffix
  }

  // A call of match() for the pattern from q on, k characters behind s.
  ghost function Rest(t: Subject, pat: seq<Byte>, q: nat, s: nat, k: nat, caps: seq<Capture>, d: nat): seq<Outcome>
    requires q <= |pat| && s + k <= |t.src| && Sound(caps, s) && |caps| <= MAX_CAPTURES
  {
    assert Sound(caps, s + k);
    Called(t, pat, q, s + k, caps, d)
  }

  // What a matcher needs at s.
  predicate At(t: Subject, s: nat, caps: seq<Capture>) {
    s <= |t.src| && Sound(caps, s) && |caps| <= MAX_CAPTURES
  }

  lemma {:induction false} RunIs(t: Subject, cls: CharClass, a: Atom, s: nat, n: nat)
    requires LongestRun(t, a, s, n) && forall c :: Has(t, cls, c) == AtomAdmits(t, a, c)
    ensures Run(t, cls, s) == n
    decreases n
  {
    hide Has, AtomAdmits;
    if n > 0 {
      RunIs(t, cls, a, s + 1, n - 1);
    }
  }

  // Of n + 1 ways, the first outcome is that of the longest one that has any.
  lemma {:induction false} LongestWay(t: Subject, pat: seq<Byte>, q: nat, s: nat, n: nat, k: nat, caps: seq<Capture>,
                                      d: nat)
    requires At(t, s, caps) && q <= |pat| && k <= n && s + n <= |t.src|
    requires forall j :: k < j <= n ==> Rest(t, pat, q, s, j, caps, d) == []
    ensures var os := Longest(t, Parse(pat, q), s, n, caps, d);
      && (Rest(t, pat, q, s, k, caps, d) != [] ==> os != [] && os[0] == Rest(t, pat, q, s, k, caps, d)[0])
      && (k == 0 && Rest(t, pat, q, s, 0, caps, d) == [] ==> os == [])
    decreases n
  {
    hide Nested;
    assert Sound(caps, s + n);
    if k < n {
      assert Rest(t, pat, q, s, n, caps, d) == [];
      LongestWay(t, pat, q, s, n - 1, k, caps, d);
    }
  }

  lemma {:induction false} ShortestWay(t: Subject, pat: seq<Byte>, cls: CharClass, q: nat, s: nat, n: nat, k: nat,
                                       caps: seq<Capture>, d: nat)
    requires At(t, s, caps) && q <= |pat| && k <= n && s + n <= |t.src| && Run(t, cls, s) == n
    requires forall j :: 0 <= j < k ==> Rest(t, pat, q, s, j, caps, d) == []
    ensures var os := Shortest(t, cls, Parse(pat, q), s, caps, d);
      && (Rest(t, pat, q, s, k, caps, d) != [] ==> os != [] && os[0] == Rest(t, pat, q, s, k, caps, d)[0])
      && (k == n && Rest(t, pat, q, s, n, caps, d) == [] ==> os == [])
    decreases n
  {
    hide Nested, Has;
    assert Sound(caps, s + 0);
    if k > 0 {
      assert Rest(t, pat, q, s, 0, caps, d) == [];
      assert Sound(caps, s + 1);
      var s1 := s + 1;
      forall j | 0 <= j < k - 1 ensures Rest(t, pat, q, s1, j, caps, d) == [] {
        assert Rest(t, pat, q, s, j + 1, caps, d) == [];
      }
      ShortestWay(t, pat, cls, q, s + 1, n - 1, k - 1, caps, d);
      assert Rest(t, pat, q, s, k, caps, d) == Rest(t, pat, q, s + 1, k - 1, caps, d);
    } else if n == 0 {
      assert !MatchesAt(t, cls, s);
    }
  }

  // The pattern at p, by the character behind the atom.
  lemma SuffixMeans(t: Subject, pat: seq<Byte>, p: nat, e: nat, a: Atom, s: nat, n: nat, caps: seq<Capture>, d: nat)
    requires AtomAt(pat, p, e, a) && LongestRun(t, a, s, n) && At(t, s, caps)
    ensures ClassEnd(pat, p) == EndAt(e) && (n > 0 ==> At(t, s + 1, caps))
    ensures var cls, here := ParseClass(pat, p, e), Here(t, pat, p, s, caps, d);
      && Run(t, cls, s) == n && (n > 0 <==> MatchesAt(t, cls, s)) && (n > 0 ==> Run(t, cls, s + 1) == n - 1)
      && (Suffixed(pat, p, e, a, 42) ==> here == Longest(t, Parse(pat, e + 1), s, n, caps, d))
      && (Suffixed(pat, p, e, a, 43) ==>
            here == if n > 0 then Longest(t, Parse(pat, e + 1), s + 1, n - 1, caps, d) else [])
      && (Suffixed(pat, p, e, a, 45) ==> here == Shortest(t, cls, Parse(pat, e + 1), s, caps, d))
      && (Suffixed(pat, p, e, a, 63) ==>
            here == (if n > 0 then Called(t, pat, e + 1, s + 1, caps, d) else []) + Here(t, pat, e + 1, s, caps, d))
      && (e == |pat| || (pat[e] != 42 && pat[e] != 43 && pat[e] != 45 && pat[e] != 63) ==>
            here == if n > 0 then Here(t, pat, e, s + 1, caps, d) else [])
  {
    hide Has, AtomAdmits, AtomAt, ParseClass, ClassEnd, Longest, Shortest, Nested;
    AtomParsed(t, pat, p, e, a);
    var cls := ParseClass(pat, p, e);
    RunIs(t, cls, a, s, n);
    assert MatchesAt(t, cls, s) == (n > 0);
    var items := Parse(pat, p);
    var q := if e < |pat| && (pat[e] == 42 || pat[e] == 43 || pat[e] == 45 || pat[e] == 63) then e + 1 else e;
    assert items[1..] == Parse(pat, q);
  }

  /** A star takes the longest run after which the rest of the pattern matches. */
  lemma StarTakesLongest(t: Subject, pat: seq<Byte>, p: nat, e: nat, a: Atom, q: nat, s: nat, n: nat, k: nat,
                         caps: seq<Capture>, d: nat)
    requires Suffixed(pat, p, e, a, 42) && LongestRun(t, a, s, n) && At(t, s, caps) && k <= n && q == e + 1
    requires forall j :: k < j <= n ==> Rest(t, pat, q, s, j, caps, d) == []
    ensures var os := Here(t, pat, p, s, caps, d);
      && (Rest(t, pat, q, s, k, caps, d) != [] ==> os != [] && os[0] == Rest(t, pat, q, s, k, caps, d)[0])
      && (k == 0 && Rest(t, pat, q, s, 0, caps, d) == [] ==> os == [])
  {
    hide Here, Rest, AtomAt, LongestRun, Run, Longest;
    SuffixMeans(t, pat, p, e, a, s, n, caps, d);
    LongestWay(t, pat, q, s, n, k, caps, d);
  }

  /** A plus does the same, but takes one character at least. */
  lemma PlusTakesLongest(t: Subject, pat: seq<Byte>, p: nat, e: nat, a: Atom, q: nat, s: nat, n: nat, k: nat,
                         caps: seq<Capture>, d: nat)
    requires Suffixed(pat, p, e, a, 43) && LongestRun(t, a, s, n) && At(t, s, caps) && k <= n && q == e + 1
    requires forall j :: k < j <= n ==> Rest(t, pat, q, s, j, caps, d) == []
    ensures var os := Here(t, pat, p, s, caps, d);
      && (k > 0 && Rest(t, pat, q, s, k, caps, d) != [] ==>
            os != [] && os[0] == Rest(t, pat, q, s, k, caps, d)[0])
      && (k == 0 ==> os == [])
  {
    hide Here, Rest, AtomAt, LongestRun, Run, Longest;
    SuffixMeans(t, pat, p, e, a, s, n, caps, d);
    if n > 0 {
      var from := if k == 0 then 0 else k - 1;
      var s1 := s + 1;
      forall j | from < j <= n - 1 ensures Rest(t, pat, q, s1, j, caps, d) == [] {
        OneOn(t, pat, q, s, j, caps, d);
      }
      LongestWay(t, pat, q, s + 1, n - 1, from, caps, d);
      OneOn(t, pat, q, s, from, caps, d);
    }
  }

  lemma OneOn(t: Subject, pat: seq<Byte>, q: nat, s: nat, j: nat, caps: seq<Capture>, d: nat)
    requires At(t, s, caps) && q <= |pat| && s + 1 + j <= |t.src|
    ensures At(t, s + 1, caps) && Rest(t, pat, q, s + 1, j, caps, d) == Rest(t, pat, q, s, j + 1, caps, d)
  {
  }

  /** A minus takes the shortest run after which the rest of the pattern matches. */
  lemma MinusTakesShortest(t: Subject, pat: seq<Byte>, p: nat, e: nat, a: Atom, q: nat, s: nat, n: nat, k: nat,
                           caps: seq<Capture>, d: nat)
    requires Suffixed(pat, p, e, a, 45) && LongestRun(t, a, s, n) && At(t, s, caps) && k <= n && q == e + 1
    requires forall j :: 0 <= j < k ==> Rest(t, pat, q, s, j, caps, d) == []
    ensures var os := Here(t, pat, p, s, caps, d);
      && (Rest(t, pat, q, s, k, caps, d) != [] ==> os != [] && os[0] == Rest(t, pat, q, s, k, caps, d)[0])
      && (k == n && Rest(t, pat, q, s, n, caps, d) == [] ==> os == [])
  {
    hide Here, Rest, AtomAt, LongestRun, Run, Shortest, ParseClass;
    SuffixMeans(t, pat, p, e, a, s, n, caps, d);
    AtomParsed(t, pat, p, e, a);
    ShortestWay(t, pat, ParseClass(pat, p, e), e + 1, s, n, k, caps, d);
  }

  /** A question mark takes one character if there is one and the rest matches behind it, and else none. */
  lemma MarkTakesOneFirst(t: Subject, pat: seq<Byte>, p: nat, e: nat, a: Atom, s: nat, n: nat,
                          caps: seq<Capture>, d: nat)
    requires Suffixed(pat, p, e, a, 63) && LongestRun(t, a, s, n) && At(t, s, caps)
    ensures var os := Here(t, pat, p, s, caps, d);
      if n > 0 && Rest(t, pat, e + 1, s, 1, caps, d) != [] then
        os != [] && os[0] == Rest(t, pat, e + 1, s, 1, caps, d)[0]
      else os == Here(t, pat, e + 1, s, caps, d)
  {
    hide Here, AtomAt, LongestRun, Run, Called;
    SuffixMeans(t, pat, p, e, a, s, n, caps, d);
  }

  /** Without a suffix one character is taken. */
  lemma AtomTakesOne(t: Subject, pat: seq<Byte>, p: nat, e: nat, a: Atom, s: nat, caps: seq<Capture>, d: nat)
    requires AtomAt(pat, p, e, a) && At(t, s, caps)
    requires e == |pat| || (pat[e] != 42 && pat[e] != 43 && pat[e] != 45 && pat[e] != 63)
    ensures var admitted := s < |t.src| && AtomAdmits(t, a, t.src[s]);
      && (admitted ==> At(t, s + 1, caps))
      && Here(t, pat, p, s, caps, d) == if admitted then Here(t, pat, e, s + 1, caps, d) else []
  {
    hide Here, AtomAt, Run, AtomAdmits;
    var n := SomeRun(t, a, s);
    SuffixMeans(t, pat, p, e, a, s, n, caps, d);
  }

  lemma SomeRun(t: Subject, a: Atom, s: nat) returns (n: nat)
    requires s <= |t.src|
    ensures LongestRun(t, a, s, n)
    decreases |t.src| - s
  {
    hide AtomAdmits;
    if s < |t.src| && AtomAdmits(t, a, t.src[s]) {
      var m := SomeRun(t, a, s + 1);
      n := m + 1;
    } else {
      n := 0;
    }
  }

  // Nothing is left of the pattern.
  lemma EndMatches(t: Subject, pat: seq<Byte>, p: nat, s: nat, caps: seq<Capture>, d: nat)
    requires p <= |pat| && (p == |pat| || pat[p] == 0) && At(t, s, caps)
    ensures Here(t, pat, p, s, caps, d) == [Match(s, caps)]
  {
  }

  /** An atom with a suffix and nothing behind it: where the match ends. */
  lemma AloneEnds(t: Subject, pat: seq<Byte>, e: nat, a: Atom, s: nat, n: nat, caps: seq<Capture>, d: nat)
    requires AtomAt(pat, 0, e, a) && |pat| == e + 1 && LongestRun(t, a, s, n) && At(t, s, caps) && d < 199
    ensures forall m :: s <= m <= s + n ==> Sound(caps, m)
    ensures var os := Called(t, pat, 0, s, caps, d);
      && (pat[e] == 42 ==> os != [] && os[0] == Match(s + n, caps))
      && (pat[e] == 43 ==> if n == 0 then os == [] else os != [] && os[0] == Match(s + n, caps))
      && (pat[e] == 45 ==> os != [] && os[0] == Match(s, caps))
      && (pat[e] == 63 ==> os != [] && os[0] == Match(if n == 0 then s else s + 1, caps))
  {
    hide Here, AtomAt, LongestRun, Results, Parse;
    CallsNest(t, pat, 0, s, caps, d);
    var q, d1 := e + 1, d + 1;
    RunInside(t, a, s, n);
    forall j | 0 <= j <= n ensures Rest(t, pat, q, s, j, caps, d1) == [Match(s + j, caps)] {
      assert At(t, s + j, caps);
      CallsNest(t, pat, q, s + j, caps, d1);
      EndMatches(t, pat, q, s + j, caps, d + 2);
    }
    EndMatches(t, pat, e + 1, s, caps, d + 1);
    if pat[e] == 42 {
      StarTakesLongest(t, pat, 0, e, a, q, s, n, n, caps, d1);
    } else if pat[e] == 43 {
      PlusTakesLongest(t, pat, 0, e, a, q, s, n, n, caps, d1);
    } else if pat[e] == 45 {
      MinusTakesShortest(t, pat, 0, e, a, q, s, n, 0, caps, d1);
    } else if pat[e] == 63 {
      MarkTakesOneFirst(t, pat, 0, e, a, s, n, caps, d1);
    }
  }

  lemma RunInside(t: Subject, a: Atom, s: nat, n: nat)
    requires LongestRun(t, a, s, n)
    ensures s + n <= |t.src|
  {
  }

  // ---------------------------------------------------------------- captures

  /** A parenthesis starts a capture, at most 32 of them; two in a row are a position capture. */
  lemma ParenthesisOpens(t: Subject, pat: seq<Byte>, p: nat, s: nat, caps: seq<Capture>, d: nat)
    requires p < |pat| && pat[p] == 40 && At(t, s, caps)
    ensures var position := p + 1 < |pat| && pat[p + 1] == 41;
      var started := caps + [Capture(s, if position then -2 else -1)];
      && (|caps| < 32 ==> At(t, s, started))
      && Here(t, pat, p, s, caps, d) ==
           if |caps| >= 32 then [Raise(TooManyCaptures)]
           else Called(t, pat, if position then p + 2 else p + 1, s, started, d)
  {
    hide Nested;
    var position := p + 1 < |pat| && pat[p + 1] == 41;
    assert Parse(pat, p)[1..] == Parse(pat, if position then p + 2 else p + 1);
  }

  // The innermost capture that is not closed.
  predicate Innermost(caps: seq<Capture>, l: nat) {
    l < |caps| && caps[l].len == -1 && forall k :: l < k < |caps| ==> caps[k].len != -1
  }

  lemma {:induction false} InnermostIs(caps: seq<Capture>, n: nat, l: int)
    requires -1 <= l < n <= |caps| && (l >= 0 ==> caps[l].len == -1) && forall k :: l < k < n ==> caps[k].len != -1
    ensures ToClose(caps, n) == l
  {
    if l < n - 1 {
      InnermostIs(caps, n - 1, l);
    }
  }

  /** A closing one ends the innermost capture, which then is the text since its start. */
  lemma ParenthesisCloses(t: Subject, pat: seq<Byte>, p: nat, s: nat, l: nat, caps: seq<Capture>, d: nat)
    requires p < |pat| && pat[p] == 41 && At(t, s, caps) && Innermost(caps, l)
    ensures var closed := caps[l := Capture(caps[l].init, s - caps[l].init)];
      At(t, s, closed) && Here(t, pat, p, s, caps, d) == Called(t, pat, p + 1, s, closed, d)
  {
    hide Nested;
    InnermostIs(caps, |caps|, l);
    assert Parse(pat, p)[1..] == Parse(pat, p + 1);
  }

  lemma NoneToClose(t: Subject, pat: seq<Byte>, p: nat, s: nat, caps: seq<Capture>, d: nat)
    requires p < |pat| && pat[p] == 41 && At(t, s, caps) && forall k :: 0 <= k < |caps| ==> caps[k].len != -1
    ensures Here(t, pat, p, s, caps, d) == [Raise(InvalidPattern)]
  {
    InnermostIsNone(caps, |caps|);
  }

  lemma {:induction false} InnermostIsNone(caps: seq<Capture>, n: nat)
    requires n <= |caps| && forall k :: 0 <= k < n ==> caps[k].len != -1
    ensures ToClose(caps, n) == -1
  {
    if n > 0 {
      InnermostIsNone(caps, n - 1);
    }
  }

  /** % and a digit match the text of that capture again; a capture that is open or missing is an error. */
  lemma DigitMatchesAgain(t: Subject, pat: seq<Byte>, p: nat, s: nat, caps: seq<Capture>, d: nat)
    requires p + 1 < |pat| && pat[p] == 37 && 48 <= pat[p + 1] <= 57 && At(t, s, caps)
    ensures var l: int := pat[p + 1] as int - 49;
      if l < 0 || l >= |caps| || caps[l].len == -1 then Here(t, pat, p, s, caps, d) == [Raise(InvalidIndex)]
      else
        var from, to := caps[l].init, caps[l].init + caps[l].len;
        if 0 <= from <= to <= |t.src| && TextAt(t.src, s, t.src[from..to]) then
          At(t, s + (to - from), caps) && Here(t, pat, p, s, caps, d) == Here(t, pat, p + 2, s + (to - from), caps, d)
        else Here(t, pat, p, s, caps, d) == []
  {
    assert Parse(pat, p)[1..] == Parse(pat, p + 2);
  }

  // ---------------------------------------------------------------- balances, frontiers, the end

  // How often the character occurs from i to j.
  function Count(src: seq<Byte>, i: nat, j: nat, c: Byte): nat
    requires i <= j <= |src|
  {
    if i == j then 0 else Count(src, i, j - 1, c) + if src[j - 1] == c then 1 else 0
  }

  // From s to e, open and close balance, and nowhere before; if they are the same, e is behind the next one.
  ghost predicate Balanced(src: seq<Byte>, s: nat, e: nat, open: Byte, close: Byte) {
    && s + 1 < e <= |src| && src[s] == open && src[e - 1] == close
    && (open != close ==> Count(src, s, e, open) == Count(src, s, e, close))
    && StillOpen(src, s, e - 1, open, close)
  }

  ghost predicate StillOpen(src: seq<Byte>, s: nat, e: nat, open: Byte, close: Byte) {
    && s < e <= |src|
    && if open == close then forall k :: s < k < e ==> src[k] != open
       else forall k :: s < k <= e ==> Count(src, s, k, open) > Count(src, s, k, close)
  }

  lemma {:induction false} BalanceIs(src: seq<Byte>, s: nat, k: nat, open: Byte, close: Byte, depth: nat)
    requires s < k <= |src| && src[s] == open && StillOpen(src, s, k, open, close)
    requires depth > 0 && depth == if open == close then 1 else Count(src, s, k, open) - Count(src, s, k, close)
    ensures var e := BalanceEnd(src, k, open, close, depth);
      if e < 0 then StillOpen(src, s, |src|, open, close) else Balanced(src, s, e, open, close)
    decreases |src| - k
  {
    if k < |src| {
      var depth' := if src[k] == close then depth - 1 else if src[k] == open then depth + 1 else depth;
      if depth' > 0 {
        BalanceIs(src, s, k + 1, open, close, depth');
      }
    }
  }

  lemma CountFirst(src: seq<Byte>, s: nat, c: Byte)
    requires s < |src|
    ensures Count(src, s, s + 1, c) == if src[s] == c then 1 else 0
  {
  }

  /** %b takes the text from an opening character up to where it balances first. */
  lemma BalanceTakes(t: Subject, pat: seq<Byte>, p: nat, s: nat, caps: seq<Capture>, d: nat)
    requires p + 3 < |pat| && pat[p] == 37 && pat[p + 1] == 98 && pat[p + 2] != 0 && pat[p + 3] != 0 && At(t, s, caps)
    ensures var open, close := pat[p + 2], pat[p + 3];
      if s == |t.src| || t.src[s] != open || StillOpen(t.src, s, |t.src|, open, close) then
        Here(t, pat, p, s, caps, d) == []
      else exists e ::
        Balanced(t.src, s, e, open, close) && At(t, e, caps) &&
          Here(t, pat, p, s, caps, d) == Here(t, pat, p + 4, e, caps, d)
  {
    hide BalanceEnd, Nested, Longest, Shortest;
    var open, close := pat[p + 2], pat[p + 3];
    assert Parse(pat, p)[1..] == Parse(pat, p + 4);
    if s < |t.src| && t.src[s] == open {
      CountFirst(t.src, s, open);
      CountFirst(t.src, s, close);
      BalanceIs(t.src, s, s + 1, open, close, 1);
      var e := BalanceEnd(t.src, s + 1, open, close, 1);
      if e >= 0 {
        NotBoth(t.src, s, e, open, close);
      }
    }
  }

  lemma NotBoth(src: seq<Byte>, s: nat, e: nat, open: Byte, close: Byte)
    requires Balanced(src, s, e, open, close)
    ensures !StillOpen(src, s, |src|, open, close)
  {
    if open == close {
      assert src[e - 1] == open;
    } else {
      assert Count(src, s, e, open) == Count(src, s, e, close);
    }
  }

  /** %f holds between a character that is not in the set and one that is; the ends count as zero. */
  lemma FrontierMeans(t: Subject, pat: seq<Byte>, p: nat, e: nat, negated: bool, ms: seq<Member>, s: nat,
                      caps: seq<Capture>, d: nat)
    requires p + 2 < |pat| && pat[p] == 37 && pat[p + 1] == 102 && AtomAt(pat, p + 2, e, Set(negated, ms))
    requires At(t, s, caps)
    ensures var before, next := if s == 0 then 0 else t.src[s - 1], if s == |t.src| then 0 else t.src[s];
      Here(t, pat, p, s, caps, d) ==
        if !AtomAdmits(t, Set(negated, ms), before) && AtomAdmits(t, Set(negated, ms), next) then
          Here(t, pat, e, s, caps, d)
        else []
  {
    hide AtomAdmits, Has, ClassEnd, ParseSet, Nested, Longest, Shortest;
    AtomParsed(t, pat, p + 2, e, Set(negated, ms));
    SetParsed(pat, p + 2, e, negated, ms);
    FrontierParsed(pat, p, e);
  }

  lemma FrontierParsed(pat: seq<Byte>, p: nat, e: nat)
    requires p + 2 < |pat| && pat[p] == 37 && pat[p + 1] == 102 && pat[p + 2] == 91 && ClassEnd(pat, p + 2) == EndAt(e)
    ensures e <= |pat| && Parse(pat, p) == [Frontier(ParseClass(pat, p + 2, e))] + Parse(pat, e)
  {
    hide ParseSet;
  }

  /** A dollar sign at the end of the pattern matches at the end of the subject. */
  lemma DollarAtEnd(t: Subject, pat: seq<Byte>, p: nat, s: nat, caps: seq<Capture>, d: nat)
    requires p < |pat| && pat[p] == 36 && (p + 1 == |pat| || pat[p + 1] == 0) && At(t, s, caps)
    ensures Here(t, pat, p, s, caps, d) == if s == |t.src| then [Match(s, caps)] else []
  {
  }
}
