/**
 Lua patterns: the items a pattern text stands for, and all the ways a list of items can match, in
 the order a backtracking matcher tries them (section 5.4.1 of the Lua 5.1 Reference Manual).
 */
module PatternSpec {

  type Byte = x: int | 0 <= x < 256

  // --------------------------------------------------------------------- items

  datatype CharKind = Alpha | Cntrl | Digit | Graph | Lower | Punct | Space | Upper | Alnum | XDigit

  // One member of a bracket class.
  datatype SetElem = Class(letter: Byte) | Range(lo: Byte, hi: Byte) | Char(c: Byte)

  // What one pattern item can match.
  datatype CharClass = Any | Escaped(letter: Byte) | Exactly(c: Byte) | OneOf(elems: seq<SetElem>, negated: bool)

  datatype Repeat = Once | Optional | Star | Plus | Lazy

  datatype Error =
    | InvalidIndex      // %1 without such a capture
    | InvalidPattern    // ) without (
    | EndsWithEscape
    | MissingBracket
    | UnbalancedArgs    // %b without two characters
    | MissingFrontier   // %f without [
    | TooManyCaptures
    | TooComplex        // nesting limit
    | Unfinished        // ( without )

  datatype Item =
    | Open(position: bool)
    | Close
    | Balance(open: Byte, close: Byte)
    | Frontier(cls: CharClass)
    | BackRef(digit: Byte)
    | AtEnd
    | Single(cls: CharClass, rep: Repeat)
    | Malformed(error: Error)

  const ESC: Byte := 37
  const MAX_CAPTURES := 32
  const MAX_DEPTH := 200

  // A C string reads as zero behind its last character.
  function Peek(p: seq<Byte>, i: nat): Byte
    requires i <= |p|
  {
    if i < |p| then p[i] else 0
  }

  predicate IsDigit(c: Byte) {
    48 <= c <= 57
  }

  // The members between position i (exclusive) and the closing bracket at ec.
  function ParseElems(p: seq<Byte>, i: nat, ec: nat): seq<SetElem>
    requires i <= ec < |p|
    decreases ec - i
  {
    var j := i + 1;
    if j >= ec then []
    else if p[j] == ESC then
      [Class(p[j + 1])] + (if j + 1 >= ec then [] else ParseElems(p, j + 1, ec))
    else if p[j + 1] == 45 && j + 2 < ec then [Range(p[j], p[j + 2])] + ParseElems(p, j + 2, ec)
    else [Char(p[j])] + ParseElems(p, j, ec)
  }

  // The bracket class from [ at i to ] at ec.
  function ParseSet(p: seq<Byte>, i: nat, ec: nat): CharClass
    requires i < ec < |p|
  {
    if p[i + 1] == 94 && i + 1 < ec then OneOf(ParseElems(p, i + 1, ec), true)
    else OneOf(ParseElems(p, i, ec), false)
  }

  datatype End = EndAt(next: nat) | Bad(error: Error)

  // Behind the ] that closes a bracket class whose members start at j. The first member is never
  // taken for the closing bracket.
  function BracketEnd(p: seq<Byte>, j: nat): (e: End)
    requires j <= |p|
    ensures e.EndAt? ==> j + 1 < e.next <= |p| && p[e.next - 1] == 93
    decreases |p| - j
  {
    if Peek(p, j) == 0 then Bad(MissingBracket)
    else
      var k := if p[j] == ESC && Peek(p, j + 1) != 0 then j + 2 else j + 1;
      if Peek(p, k) == 93 then EndAt(k + 1) else BracketEnd(p, k)
  }

  // Behind the single-character class at i.
  function ClassEnd(p: seq<Byte>, i: nat): (e: End)
    requires i < |p|
    ensures e.EndAt? ==> i < e.next <= |p|
    ensures e.EndAt? && p[i] == 91 ==> i + 1 < e.next && p[e.next - 1] == 93
    ensures e.EndAt? && p[i] == ESC ==> e.next == i + 2
  {
    if p[i] == ESC then
      if Peek(p, i + 1) == 0 then Bad(EndsWithEscape) else EndAt(i + 2)
    else if p[i] == 91 then BracketEnd(p, if Peek(p, i + 1) == 94 then i + 2 else i + 1)
    else EndAt(i + 1)
  }

  function ParseClass(p: seq<Byte>, i: nat, next: nat): CharClass
    requires i < |p| && ClassEnd(p, i) == EndAt(next)
  {
    if p[i] == 46 then Any
    else if p[i] == ESC then Escaped(p[i + 1])
    else if p[i] == 91 then ParseSet(p, i, next - 1)
    else Exactly(p[i])
  }

  // The items of the text from i on, up to its end or a zero character.
  function Parse(p: seq<Byte>, i: nat): seq<Item>
    requires i <= |p|
    decreases |p| - i
  {
    var c := Peek(p, i);
    if c == 0 then []
    else if c == 40 then
      if Peek(p, i + 1) == 41 then [Open(true)] + Parse(p, i + 2) else [Open(false)] + Parse(p, i + 1)
    else if c == 41 then [Close] + Parse(p, i + 1)
    else if c == ESC && Peek(p, i + 1) == 98 then
      if Peek(p, i + 2) == 0 || Peek(p, i + 3) == 0 then [Malformed(UnbalancedArgs)]
      else [Balance(p[i + 2], p[i + 3])] + Parse(p, i + 4)
    else if c == ESC && Peek(p, i + 1) == 102 then
      if Peek(p, i + 2) != 91 then [Malformed(MissingFrontier)]
      else (match ClassEnd(p, i + 2)
            case Bad(e) => [Malformed(e)]
            case EndAt(next) => [Frontier(ParseSet(p, i + 2, next - 1))] + Parse(p, next))
    else if c == ESC && IsDigit(Peek(p, i + 1)) then [BackRef(p[i + 1])] + Parse(p, i + 2)
    else if c == 36 && Peek(p, i + 1) == 0 then [AtEnd]
    else ParseSingle(p, i)
  }

  function ParseSingle(p: seq<Byte>, i: nat): seq<Item>
    requires i < |p|
    decreases |p| - i, 0
  {
    match ClassEnd(p, i)
    case Bad(e) => [Malformed(e)]
    case EndAt(next) =>
      var cls := ParseClass(p, i, next);
      if Peek(p, next) == 63 then [Single(cls, Optional)] + Parse(p, next + 1)
      else if Peek(p, next) == 42 then [Single(cls, Star)] + Parse(p, next + 1)
      else if Peek(p, next) == 43 then [Single(cls, Plus)] + Parse(p, next + 1)
      else if Peek(p, next) == 45 then [Single(cls, Lazy)] + Parse(p, next + 1)
      else [Single(cls, Once)] + Parse(p, next)
  }

  // ------------------------------------------------------------------- classes

  // The subject text and the character table.
  datatype Subject = Subject(src: seq<Byte>, isa: (Byte, CharKind) -> bool)

  function KindOf(letter: Byte): seq<CharKind>
    requires 64 <= letter < 128
  {
    var i := letter % 32;
    if i == 1 then [Alpha] else if i == 3 then [Cntrl] else if i == 4 then [Digit] else if i == 7 then [Graph]
    else if i == 12 then [Lower] else if i == 16 then [Punct] else if i == 19 then [Space]
    else if i == 21 then [Upper] else if i == 23 then [Alnum] else if i == 24 then [XDigit] else []
  }

  // %a, %A, ... ; any other escaped character stands for itself.
  predicate ClassHas(t: Subject, letter: Byte, c: Byte) {
    if 64 <= letter < 128 && KindOf(letter) != [] then
      (if letter >= 96 then t.isa(c, KindOf(letter)[0]) else !t.isa(c, KindOf(letter)[0]))
    else if letter == 122 then c == 0
    else if letter == 90 then c != 0
    else letter == c
  }

  predicate ElemHas(t: Subject, e: SetElem, c: Byte) {
    match e
    case Class(letter) => ClassHas(t, letter, c)
    case Range(lo, hi) => lo <= c <= hi
    case Char(d) => d == c
  }

  predicate SetHas(t: Subject, elems: seq<SetElem>, c: Byte) {
    exists i :: 0 <= i < |elems| && ElemHas(t, elems[i], c)
  }

  predicate Has(t: Subject, cls: CharClass, c: Byte) {
    match cls
    case Any => true
    case Escaped(letter) => ClassHas(t, letter, c)
    case Exactly(d) => d == c
    case OneOf(elems, negated) => SetHas(t, elems, c) != negated
  }

  predicate MatchesAt(t: Subject, cls: CharClass, s: nat) {
    s < |t.src| && Has(t, cls, t.src[s])
  }

  // ------------------------------------------------------------------- results

  // A capture: where it starts, and its length, -1 while unfinished, -2 for a position capture.
  datatype Capture = Capture(init: nat, len: int)

  const UNFINISHED := -1
  const POSITION := -2

  // Captures lie before the position s reached so far.
  predicate Sound(caps: seq<Capture>, s: nat) {
    forall i :: 0 <= i < |caps| ==> POSITION <= caps[i].len && caps[i].init <= s && caps[i].init + caps[i].len <= s
  }

  // One way to go on: a match that ends at `end`, or an error raised on the way.
  datatype Outcome = Match(end: nat, caps: seq<Capture>) | Raise(error: Error)

  // The innermost unfinished capture below n, -1 if there is none.
  function ToClose(caps: seq<Capture>, n: nat): (l: int)
    requires n <= |caps|
    ensures -1 <= l < n
    ensures l >= 0 ==> caps[l].len == UNFINISHED
    ensures forall k :: l < k < n ==> caps[k].len != UNFINISHED
  {
    if n == 0 then -1 else if caps[n - 1].len == UNFINISHED then n - 1 else ToClose(caps, n - 1)
  }

  // Behind the delimiter that balances the one at s, looking from k with `depth` still open.
  function BalanceEnd(src: seq<Byte>, k: nat, open: Byte, close: Byte, depth: nat): (r: int)
    requires k <= |src| && depth > 0
    ensures r == -1 || k < r <= |src|
    decreases |src| - k
  {
    if k == |src| then -1
    else if src[k] == close then (if depth == 1 then k + 1 else BalanceEnd(src, k + 1, open, close, depth - 1))
    else if src[k] == open then BalanceEnd(src, k + 1, open, close, depth + 1)
    else BalanceEnd(src, k + 1, open, close, depth)
  }

  // How many characters from s on belong to the class.
  function Run(t: Subject, cls: CharClass, s: nat): (n: nat)
    requires s <= |t.src|
    ensures s + n <= |t.src|
    ensures forall k :: s <= k < s + n ==> MatchesAt(t, cls, k)
    ensures !MatchesAt(t, cls, s + n)
    decreases |t.src| - s
  {
    if MatchesAt(t, cls, s) then 1 + Run(t, cls, s + 1) else 0
  }

  predicate FrontierHolds(t: Subject, cls: CharClass, s: nat)
    requires s <= |t.src|
  {
    !Has(t, cls, if s == 0 then 0 else t.src[s - 1]) && Has(t, cls, if s < |t.src| then t.src[s] else 0)
  }

  // All outcomes of matching the items from s on, best first. `depth` counts the calls under way.
  ghost function Results(t: Subject, items: seq<Item>, s: nat, caps: seq<Capture>, depth: nat): seq<Outcome>
    requires s <= |t.src| && Sound(caps, s) && |caps| <= MAX_CAPTURES
    decreases |items|, 2
  {
    if items == [] then [Match(s, caps)]
    else
      var rest := items[1..];
      match items[0]
      case Malformed(e) => [Raise(e)]
      case Open(position) =>
        if |caps| >= MAX_CAPTURES then [Raise(TooManyCaptures)]
        else Nested(t, rest, s, caps + [Capture(s, if position then POSITION else UNFINISHED)], depth)
      case Close =>
        var l := ToClose(caps, |caps|);
        if l < 0 then [Raise(InvalidPattern)]
        else Nested(t, rest, s, caps[l := Capture(caps[l].init, s - caps[l].init)], depth)
      case Balance(open, close) =>
        if s == |t.src| || t.src[s] != open then []
        else
          var e := BalanceEnd(t.src, s + 1, open, close, 1);
          if e < 0 then [] else Results(t, rest, e, caps, depth)
      case Frontier(cls) => if FrontierHolds(t, cls, s) then Results(t, rest, s, caps, depth) else []
      case BackRef(digit) =>
        var l := digit - 49;
        if l < 0 || l >= |caps| || caps[l].len == UNFINISHED then [Raise(InvalidIndex)]
        else if caps[l].len >= 0 && s + caps[l].len <= |t.src|
                && t.src[caps[l].init..caps[l].init + caps[l].len] == t.src[s..s + caps[l].len]
        then Results(t, rest, s + caps[l].len, caps, depth)
        else []
      case AtEnd => if s == |t.src| then [Match(s, caps)] else []
      case Single(cls, rep) =>
        match rep
        case Once => if MatchesAt(t, cls, s) then Results(t, rest, s + 1, caps, depth) else []
        case Optional =>
          (if MatchesAt(t, cls, s) then Nested(t, rest, s + 1, caps, depth) else []) + Results(t, rest, s, caps, depth)
        case Star => Longest(t, rest, s, Run(t, cls, s), caps, depth)
        case Plus => if MatchesAt(t, cls, s) then Longest(t, rest, s + 1, Run(t, cls, s + 1), caps, depth) else []
        case Lazy => Shortest(t, cls, rest, s, caps, depth)
  }

  // A recursive call of the matcher, subject to the nesting limit.
  ghost function Nested(t: Subject, items: seq<Item>, s: nat, caps: seq<Capture>, depth: nat): seq<Outcome>
    requires s <= |t.src| && Sound(caps, s) && |caps| <= MAX_CAPTURES
    decreases |items|, 3
  {
    if depth >= MAX_DEPTH then [Raise(TooComplex)] else Results(t, items, s, caps, depth + 1)
  }

  // After n characters first, then after n - 1, ..., then after none.
  ghost function Longest(t: Subject, items: seq<Item>, s: nat, n: nat, caps: seq<Capture>, depth: nat): seq<Outcome>
    requires s + n <= |t.src| && Sound(caps, s) && |caps| <= MAX_CAPTURES
    decreases |items|, 4, n
  {
    Nested(t, items, s + n, caps, depth) + (if n == 0 then [] else Longest(t, items, s, n - 1, caps, depth))
  }

  // After no character first, then after one, as long as they belong to the class.
  ghost function Shortest(t: Subject, cls: CharClass, items: seq<Item>, s: nat, caps: seq<Capture>, depth: nat)
    : seq<Outcome>
    requires s <= |t.src| && Sound(caps, s) && |caps| <= MAX_CAPTURES
    decreases |items|, 4, |t.src| - s
  {
    Nested(t, items, s, caps, depth) +
    (if MatchesAt(t, cls, s) then Shortest(t, cls, items, s + 1, caps, depth) else [])
  }

  // The outcomes of a pattern text at s, best first: of match() from `init:` on, and of a call of match().
  ghost function Here(t: Subject, pat: seq<Byte>, p: nat, s: nat, caps: seq<Capture>, d: nat): seq<Outcome>
    requires p <= |pat| && s <= |t.src| && Sound(caps, s) && |caps| <= MAX_CAPTURES
  {
    Results(t, Parse(pat, p), s, caps, d)
  }

  ghost function Called(t: Subject, pat: seq<Byte>, p: nat, s: nat, caps: seq<Capture>, d: nat): seq<Outcome>
    requires p <= |pat| && s <= |t.src| && Sound(caps, s) && |caps| <= MAX_CAPTURES
  {
    Nested(t, Parse(pat, p), s, caps, d)
  }
}
