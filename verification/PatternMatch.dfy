/**
 The backtracking matcher over raw pattern text, with captures that are written and undone in place.
 Every method is proved to deliver the first outcome of PatternSpec and to leave no trace when it fails.
 The matcher's `goto init` is a tail call here; like in the source it does not count as nesting.
 */
module PatternMatch {
  import opened PatternSpec

  datatype Found = Fail | Done(end: nat) | Failed(error: Error)

  class MatchState {
    const t: Subject
    const pat: seq<Byte>
    var level: nat
    var depth: nat
    const capture: array<Capture>

    ghost predicate Shaped()
      reads this
    {
      capture.Length == MAX_CAPTURES && level <= MAX_CAPTURES
    }

    ghost function Caps(): seq<Capture>
      requires Shaped()
      reads this, capture
    {
      capture[..level]
    }

    // The state a call starts from.
    ghost predicate Ready(s: nat, caps: seq<Capture>, d: nat)
      reads this, capture
    {
      Shaped() && Caps() == caps && depth == d && s <= |t.src| && Sound(caps, s)
    }

    // The result is the first of the outcomes; after a failure captures and depth are as they were.
    ghost predicate Delivers(r: Found, os: seq<Outcome>, s: nat, caps: seq<Capture>, d: nat)
      reads this, capture
    {
      Shaped() &&
      match r
      case Fail => os == [] && Caps() == caps && depth == d
      case Done(e) => os != [] && os[0] == Match(e, Caps()) && s <= e <= |t.src| && Sound(Caps(), e) && depth == d
      case Failed(x) => os != [] && os[0] == Raise(x)
    }

    constructor (t: Subject, pat: seq<Byte>)
      ensures Shaped() && level == 0 && depth == 0 && fresh(capture) && this.t == t && this.pat == pat
    {
      this.t, this.pat := t, pat;
      level, depth := 0, 0;
      capture := new Capture[MAX_CAPTURES](_ => Capture(0, 0));
    }

    // ------------------------------------------------------------- reading the pattern

    method FindClassEnd(p: nat) returns (e: End)
      requires p < |pat|
      ensures e == ClassEnd(pat, p)
    {
      if pat[p] == ESC {
        if Peek(pat, p + 1) == 0 {
          return Bad(EndsWithEscape);
        }
        return EndAt(p + 2);
      } else if pat[p] == 91 {
        var q := p + 1;
        if Peek(pat, q) == 94 {
          q := q + 1;
        }
        ghost var start := q;
        var more := true;
        while more
          invariant start <= q <= |pat|
          invariant more ==> BracketEnd(pat, start) == BracketEnd(pat, q)
          invariant !more ==> Peek(pat, q) == 93 && BracketEnd(pat, start) == EndAt(q + 1)
          decreases if more then |pat| - q + 1 else 0
        {
          if Peek(pat, q) == 0 {
            return Bad(MissingBracket);
          }
          var c := pat[q];
          q := q + 1;
          if c == ESC && Peek(pat, q) != 0 {
            q := q + 1;
          }
          more := Peek(pat, q) != 93;
        }
        return EndAt(q + 1);
      } else {
        return EndAt(p + 1);
      }
    }

    method MatchBracketClass(c: Byte, p: nat, ec: nat) returns (r: bool)
      requires p < ec < |pat|
      ensures r == Has(t, ParseSet(pat, p, ec), c)
    {
      var sig, q := true, p;
      if pat[q + 1] == 94 && q + 1 < ec {
        sig := false;
        q := q + 1;
      }
      var found := SearchElems(c, q, ec);
      r := if found then sig else !sig;
    }

    // The loop over the members between q (exclusive) and ec.
    method SearchElems(c: Byte, start: nat, ec: nat) returns (found: bool)
      requires start <= ec < |pat|
      ensures found == SetHas(t, ParseElems(pat, start, ec), c)
    {
      var q := start + 1;
      while q < ec
        invariant start < q <= ec + 1
        invariant SetHas(t, ParseElems(pat, start, ec), c) == (q <= ec && SetHas(t, ParseElems(pat, q - 1, ec), c))
      {
        ghost var elems := ParseElems(pat, q - 1, ec);
        FirstOrRest(t, elems, c);
        if pat[q] == ESC {
          q := q + 1;
          assert elems[0] == Class(pat[q]);
          if ClassHas(t, pat[q], c) {
            return true;
          }
        } else if pat[q + 1] == 45 && q + 2 < ec {
          q := q + 2;
          assert elems[0] == Range(pat[q - 2], pat[q]);
          if pat[q - 2] <= c <= pat[q] {
            return true;
          }
        } else {
          assert elems[0] == Char(pat[q]);
          if pat[q] == c {
            return true;
          }
        }
        q := q + 1;
        assert elems[1..] == if q <= ec then ParseElems(pat, q - 1, ec) else [];
      }
      return false;
    }

    method SingleMatch(c: Byte, p: nat, ep: nat) returns (r: bool)
      requires p < |pat| && ClassEnd(pat, p) == EndAt(ep)
      ensures r == Has(t, ParseClass(pat, p, ep), c)
    {
      if pat[p] == 46 {
        return true;
      } else if pat[p] == ESC {
        return ClassHas(t, pat[p + 1], c);
      } else if pat[p] == 91 {
        r := MatchBracketClass(c, p, ep - 1);
      } else {
        return pat[p] == c;
      }
    }

    // s < src_end and the character there belongs to the class at p.
    method SingleMatchAt(s: nat, p: nat, ep: nat) returns (r: bool)
      requires s <= |t.src| && p < |pat| && ClassEnd(pat, p) == EndAt(ep)
      ensures r == MatchesAt(t, ParseClass(pat, p, ep), s)
    {
      if s < |t.src| {
        r := SingleMatch(t.src[s], p, ep);
      } else {
        r := false;
      }
    }

    // -------------------------------------------------------------------- the matcher

    // A recursive call: one level deeper, within the limit.
    method DoMatch(s: nat, p: nat, ghost caps: seq<Capture>, ghost d: nat) returns (r: Found)
      requires Ready(s, caps, d) && p <= |pat|
      modifies this, capture
      ensures Delivers(r, Called(t, pat, p, s, caps, d), s, caps, d)
      decreases |pat| - p, 3
    {
      depth := depth + 1;
      if depth > MAX_DEPTH {
        return Failed(TooComplex);
      }
      r := MatchHere(s, p, caps, d + 1);
      if !r.Failed? {
        depth := depth - 1;
      }
    }

    // The body of match() from `init:` on.
    method MatchHere(s: nat, p: nat, ghost caps: seq<Capture>, ghost d: nat) returns (r: Found)
      requires Ready(s, caps, d) && p <= |pat|
      modifies this, capture
      ensures Delivers(r, Here(t, pat, p, s, caps, d), s, caps, d)
      decreases |pat| - p, 2
    {
      var c := Peek(pat, p);
      if c == 40 {
        if Peek(pat, p + 1) == 41 {
          r := StartCapture(s, p + 2, POSITION, caps, d);
        } else {
          r := StartCapture(s, p + 1, UNFINISHED, caps, d);
        }
      } else if c == 41 {
        r := EndCapture(s, p + 1, caps, d);
      } else if c == ESC && Peek(pat, p + 1) == 98 {
        r := MatchBalance(s, p, caps, d);
      } else if c == ESC && Peek(pat, p + 1) == 102 {
        r := MatchFrontier(s, p, caps, d);
      } else if c == ESC && IsDigit(Peek(pat, p + 1)) {
        r := MatchCapture(s, p, caps, d);
      } else if c == 0 {
        r := Done(s);
      } else if c == 36 && Peek(pat, p + 1) == 0 {
        r := if s != |t.src| then Fail else Done(s);
      } else {
        r := MatchItem(s, p, caps, d);
      }
    }

    method StartCapture(s: nat, p: nat, what: int, ghost caps: seq<Capture>, ghost d: nat) returns (r: Found)
      requires Ready(s, caps, d) && p <= |pat| && (what == POSITION || what == UNFINISHED)
      modifies this, capture
      ensures Delivers(r, Results(t, [Open(what == POSITION)] + Parse(pat, p), s, caps, d), s, caps, d)
      decreases |pat| - p, 4
    {
      ghost var items := [Open(what == POSITION)] + Parse(pat, p);
      assert items[1..] == Parse(pat, p);
      if level >= MAX_CAPTURES {
        return Failed(TooManyCaptures);
      }
      capture[level] := Capture(s, what);
      level := level + 1;
      assert Caps() == caps + [Capture(s, what)];
      r := DoMatch(s, p, caps + [Capture(s, what)], d);
      if r.Fail? {
        level := level - 1;
        assert Caps() == (caps + [Capture(s, what)])[..|caps|];
      }
    }

    // The innermost unfinished capture, -1 if there is none.
    method CaptureToClose() returns (l: int)
      requires Shaped()
      ensures l == ToClose(Caps(), level)
    {
      l := level - 1;
      while l >= 0
        invariant -1 <= l < level
        invariant ToClose(Caps(), level) == ToClose(Caps(), l + 1)
      {
        if capture[l].len == UNFINISHED {
          return;
        }
        l := l - 1;
      }
    }

    method EndCapture(s: nat, p: nat, ghost caps: seq<Capture>, ghost d: nat) returns (r: Found)
      requires Ready(s, caps, d) && p <= |pat|
      modifies this, capture
      ensures Delivers(r, Results(t, [Close] + Parse(pat, p), s, caps, d), s, caps, d)
      decreases |pat| - p, 4
    {
      ghost var items := [Close] + Parse(pat, p);
      assert items[1..] == Parse(pat, p);
      var l := CaptureToClose();
      if l < 0 {
        return Failed(InvalidPattern);
      }
      var init := capture[l].init;
      capture[l] := Capture(init, s - init);
      ghost var closed := caps[l := Capture(init, s - init)];
      assert Caps() == closed;
      r := DoMatch(s, p, closed, d);
      if r.Fail? {
        capture[l] := Capture(capture[l].init, UNFINISHED);
        assert Caps() == closed[l := caps[l]] == caps;
      }
    }

    // Behind the balanced text that starts at s, -1 if there is none.
    method FindBalanced(s: nat, open: Byte, close: Byte) returns (r: int)
      requires s < |t.src| && t.src[s] == open
      ensures r == BalanceEnd(t.src, s + 1, open, close, 1)
    {
      var k, cont := s + 1, 1;
      while k < |t.src|
        invariant s < k <= |t.src| && cont > 0
        invariant BalanceEnd(t.src, s + 1, open, close, 1) == BalanceEnd(t.src, k, open, close, cont)
      {
        if t.src[k] == close {
          cont := cont - 1;
          if cont == 0 {
            return k + 1;
          }
        } else if t.src[k] == open {
          cont := cont + 1;
        }
        k := k + 1;
      }
      return -1;
    }

    // %b: the pattern is at p.
    method MatchBalance(s: nat, p: nat, ghost caps: seq<Capture>, ghost d: nat) returns (r: Found)
      requires Ready(s, caps, d) && p < |pat| && pat[p] == ESC && Peek(pat, p + 1) == 98
      modifies this, capture
      ensures Delivers(r, Results(t, Parse(pat, p), s, caps, d), s, caps, d)
      decreases |pat| - p, 1
    {
      if Peek(pat, p + 2) == 0 || Peek(pat, p + 3) == 0 {
        return Failed(UnbalancedArgs);
      }
      assert Parse(pat, p)[1..] == Parse(pat, p + 4);
      if Peek(t.src, s) != pat[p + 2] {
        return Fail;
      }
      if s == |t.src| {
        return Fail;
      }
      var e := FindBalanced(s, pat[p + 2], pat[p + 3]);
      if e < 0 {
        return Fail;
      }
      SoundLater(caps, s, e);
      r := MatchHere(e, p + 4, caps, d);
    }

    // %f: the pattern is at p.
    method MatchFrontier(s: nat, p: nat, ghost caps: seq<Capture>, ghost d: nat) returns (r: Found)
      requires Ready(s, caps, d) && p < |pat| && pat[p] == ESC && Peek(pat, p + 1) == 102
      modifies this, capture
      ensures Delivers(r, Results(t, Parse(pat, p), s, caps, d), s, caps, d)
      decreases |pat| - p, 1
    {
      if Peek(pat, p + 2) != 91 {
        return Failed(MissingFrontier);
      }
      var end := FindClassEnd(p + 2);
      if end.Bad? {
        return Failed(end.error);
      }
      var ep := end.next;
      assert Parse(pat, p)[1..] == Parse(pat, ep);
      var previous := if s == 0 then 0 else t.src[s - 1];
      var before := MatchBracketClass(previous, p + 2, ep - 1);
      if before {
        return Fail;
      }
      var here := MatchBracketClass(Peek(t.src, s), p + 2, ep - 1);
      if !here {
        return Fail;
      }
      r := MatchHere(s, ep, caps, d);
    }

    // %0 to %9: the pattern is at p.
    method MatchCapture(s: nat, p: nat, ghost caps: seq<Capture>, ghost d: nat) returns (r: Found)
      requires Ready(s, caps, d) && p < |pat| && pat[p] == ESC && IsDigit(Peek(pat, p + 1))
      modifies this, capture
      ensures Delivers(r, Results(t, Parse(pat, p), s, caps, d), s, caps, d)
      decreases |pat| - p, 1
    {
      assert Parse(pat, p)[1..] == Parse(pat, p + 2);
      var l: int := pat[p + 1];
      l := l - 49;
      if l < 0 || l >= level || capture[l].len == UNFINISHED {
        return Failed(InvalidIndex);
      }
      assert capture[l] == caps[l];
      // The length is compared as an unsigned number: a position capture is too long to match.
      var init, len := capture[l].init, capture[l].len;
      if 0 <= len <= |t.src| - s && t.src[init..init + len] == t.src[s..s + len] {
        SoundLater(caps, s, s + len);
        r := MatchHere(s + len, p + 2, caps, d);
      } else {
        r := Fail;
      }
    }

    // A single-character class at p with its repetition.
    method MatchItem(s: nat, p: nat, ghost caps: seq<Capture>, ghost d: nat) returns (r: Found)
      requires Ready(s, caps, d) && p < |pat| && pat[p] != 0 && Parse(pat, p) == ParseSingle(pat, p)
      modifies this, capture
      ensures Delivers(r, Results(t, Parse(pat, p), s, caps, d), s, caps, d)
      decreases |pat| - p, 1
    {
      var end := FindClassEnd(p);
      if end.Bad? {
        return Failed(end.error);
      }
      var ep := end.next;
      var m := SingleMatchAt(s, p, ep);
      var suffix := Peek(pat, ep);
      assert Parse(pat, p)[1..] == Parse(pat, if suffix in {63, 42, 43, 45} then ep + 1 else ep);
      if suffix == 63 {
        r := MatchOptional(s, p, ep, m, caps, d);
      } else if suffix == 42 {
        r := MaxExpand(s, p, ep, caps, d);
      } else if suffix == 43 {
        if m {
          SoundLater(caps, s, s + 1);
          r := MaxExpand(s + 1, p, ep, caps, d);
        } else {
          r := Fail;
        }
      } else if suffix == 45 {
        r := MinExpand(s, p, ep, caps, d);
      } else if m {
        SoundLater(caps, s, s + 1);
        r := MatchHere(s + 1, ep, caps, d);
      } else {
        r := Fail;
      }
    }

    // c?: with the character first, then without it.
    method MatchOptional(s: nat, p: nat, ep: nat, m: bool, ghost caps: seq<Capture>, ghost d: nat) returns (r: Found)
      requires Ready(s, caps, d) && p < |pat| && ClassEnd(pat, p) == EndAt(ep) && ep < |pat|
      requires m == MatchesAt(t, ParseClass(pat, p, ep), s)
      modifies this, capture
      ensures Delivers(r, (if m then Nested(t, Parse(pat, ep + 1), s + 1, caps, d) else [])
                          + Results(t, Parse(pat, ep + 1), s, caps, d), s, caps, d)
      decreases |pat| - p, 0
    {
      if m {
        SoundLater(caps, s, s + 1);
        r := DoMatch(s + 1, ep + 1, caps, d);
        if !r.Fail? {
          return;
        }
      }
      r := MatchHere(s, ep + 1, caps, d);
    }

    method MaxExpand(s: nat, p: nat, ep: nat, ghost caps: seq<Capture>, ghost d: nat) returns (r: Found)
      requires Ready(s, caps, d) && p < |pat| && ClassEnd(pat, p) == EndAt(ep) && ep < |pat|
      modifies this, capture
      ensures Delivers(r, Longest(t, Parse(pat, ep + 1), s, Run(t, ParseClass(pat, p, ep), s), caps, d), s, caps, d)
      decreases |pat| - p, 0
    {
      var n := CountRun(s, p, ep);
      r := TryRuns(s, n, ep + 1, caps, d);
    }

    // n repetitions first, then one less each time.
    method TryRuns(s: nat, n: nat, p: nat, ghost caps: seq<Capture>, ghost d: nat) returns (r: Found)
      requires Ready(s, caps, d) && s + n <= |t.src| && p <= |pat|
      modifies this, capture
      ensures Delivers(r, Longest(t, Parse(pat, p), s, n, caps, d), s, caps, d)
      decreases |pat| - p, 4
    {
      hide Parse;
      hide Nested;
      ghost var rest := Parse(pat, p);
      var i: int := n;
      while i >= 0
        invariant -1 <= i <= n && Ready(s, caps, d)
        invariant Longest(t, rest, s, n, caps, d) == if i >= 0 then Longest(t, rest, s, i, caps, d) else []
      {
        SoundLater(caps, s, s + i);
        LongestFirst(t, rest, s, i, caps, d);
        r := DoMatch(s + i, p, caps, d);
        if !r.Fail? {
          return;
        }
        i := i - 1;
      }
      r := Fail;
    }

    method CountRun(s: nat, p: nat, ep: nat) returns (i: int)
      requires s <= |t.src| && p < |pat| && ClassEnd(pat, p) == EndAt(ep)
      ensures i == Run(t, ParseClass(pat, p, ep), s)
    {
      ghost var cls := ParseClass(pat, p, ep);
      i := 0;
      var m := SingleMatchAt(s, p, ep);
      while m
        invariant 0 <= i && s + i <= |t.src| && m == MatchesAt(t, cls, s + i)
        invariant Run(t, cls, s) == i + Run(t, cls, s + i)
        decreases |t.src| - s - i, if m then 1 else 0
      {
        i := i + 1;
        m := SingleMatchAt(s + i, p, ep);
      }
    }

    method MinExpand(s: nat, p: nat, ep: nat, ghost caps: seq<Capture>, ghost d: nat) returns (r: Found)
      requires Ready(s, caps, d) && p < |pat| && ClassEnd(pat, p) == EndAt(ep) && ep < |pat|
      modifies this, capture
      ensures Delivers(r, Shortest(t, ParseClass(pat, p, ep), Parse(pat, ep + 1), s, caps, d), s, caps, d)
      decreases |pat| - p, 0
    {
      ghost var cls, rest := ParseClass(pat, p, ep), Parse(pat, ep + 1);
      ghost var all := Shortest(t, cls, rest, s, caps, d);
      var k := s;
      while true
        invariant s <= k && Ready(k, caps, d)
        invariant all == Shortest(t, cls, rest, k, caps, d)
        decreases |t.src| - k
      {
        r := DoMatch(k, ep + 1, caps, d);
        if !r.Fail? {
          return;
        }
        var m := SingleMatchAt(k, p, ep);
        if !m {
          return Fail;
        }
        SoundLater(caps, k, k + 1);
        k := k + 1;
      }
    }
  }

  lemma LongestFirst(t: Subject, rest: seq<Item>, s: nat, i: nat, caps: seq<Capture>, d: nat)
    requires s + i <= |t.src| && Sound(caps, s) && Sound(caps, s + i) && |caps| <= MAX_CAPTURES
    ensures var first, all := Nested(t, rest, s + i, caps, d), Longest(t, rest, s, i, caps, d);
      && (first != [] ==> all != [] && all[0] == first[0])
      && (first == [] ==> all == if i == 0 then [] else Longest(t, rest, s, i - 1, caps, d))
  {
  }

  lemma FirstOrRest(t: Subject, elems: seq<SetElem>, c: Byte)
    requires elems != []
    ensures SetHas(t, elems, c) == (ElemHas(t, elems[0], c) || SetHas(t, elems[1..], c))
  {
    if SetHas(t, elems, c) {
      var i :| 0 <= i < |elems| && ElemHas(t, elems[i], c);
      if i > 0 {
        assert elems[1..][i - 1] == elems[i];
      }
    }
  }

  lemma SoundLater(caps: seq<Capture>, s: nat, s': nat)
    requires Sound(caps, s) && s <= s'
    ensures Sound(caps, s')
  {
  }
}
