/** The second pass, step by step: what the buffers hold while labels are fixed and branches shrink. */
module DasmLink {
  import opened DasmActions
  import opened DasmLabels
  import opened DasmLayout
  import opened DasmMemory

  function AtOf(at: seq<seq<int>>, s: nat, k: nat): int {
    if s < |at| && k < |at[s]| then at[s][k] else 0
  }

  // The position of the label that the reference at p has, if it has one.
  predicate HasLabel(what: Memory, t: Table, p: Pos) {
    p in t.target && t.target[p] in what && what[t.target[p]].LabelAt?
  }

  // The distance from the end of a branch to its label, as the second pass sees it: estimated if
  // the label is yet to come, and without the branch itself shrunk.
  function Distance(steps: seq<seq<Step>>, at: seq<seq<int>>, s: nat, k: nat, ls: nat, lk: nat): int
    requires s < |steps| && k < |steps[s]| && ls < |steps| && lk < |steps[ls]|
  {
    if Before(s, k, ls, lk) then EstAll(steps, ls, lk) - EstAll(steps, s, k + 1)
    else AtOf(at, ls, lk) - (AtOf(at, s, k) + 4)
  }

  // A reference that still waits for a local label. Nothing marks it, so that the passes take the next
  // reference in the chain, or position 0 at its end, for the position of the label.
  predicate Stray(what: Memory, t: Table, p: Pos) {
    p in what && what[p].LinkTo? && Local(what[p].lab) && p !in t.target
  }

  function StrayWord(what: Memory, t: Table, p: Pos): Pos {
    if Stray(what, t, p) then Behind(Pending(t, what[p].lab), p) else 0
  }

  // The word there, taken for the offset of the label.
  function StrayValue(what: Memory, t: Table, p: Pos): int {
    var w := StrayWord(what, t, p);
    if Stray(what, t, w) then StrayWord(what, t, w)
    else if w in what && what[w].Const? then what[w].v
    else 0
  }

  ghost predicate StraysOk(what: Memory, t: Table) {
    forall p :: Stray(what, t, p) ==>
      var w := StrayWord(what, t, p);
      w in what && (Stray(what, t, w) || what[w].Const?)
  }

  function StrayDistance(steps: seq<seq<Step>>, what: Memory, t: Table, at: seq<seq<int>>, s: nat, k: nat): int
    requires s < |steps| && k < |steps[s]|
  {
    var p, est := StepPos(steps, s, k), Est(steps[s], k);
    var w := StrayWord(what, t, p);
    var shift := if w <= p then est - AtOf(at, s, k) else SumEst(steps, SecOf(w)) - SumEst(steps, s);
    StrayValue(what, t, p) + shift - (est + 4)
  }

  function SumEst(steps: seq<seq<Step>>, s: int): nat {
    if 0 <= s <= |steps| then SectionStart(steps, s) else 0
  }

  // By how much a branch shrinks.
  function Decision(acts: seq<int>, steps: seq<seq<Step>>, what: Memory, t: Table, at: seq<seq<int>>,
                    s: nat, k: nat): nat
    requires s < |steps| && k < |steps[s]|
  {
    var x, p := steps[s][k], StepPos(steps, s, k);
    var sh := if IsRel(x) then Shrink(Opcode(acts, x.q)) else 0;
    if sh == 0 then 0
    else if Stray(what, t, p) then if -128 - sh <= StrayDistance(steps, what, t, at, s, k) <= 127 then sh else 0
    else if !HasLabel(what, t, p) then 0
    else
      var c := what[t.target[p]];
      if c.s < |steps| && c.k < |steps[c.s]| && -128 - sh <= Distance(steps, at, s, k, c.s, c.k) <= 127 then sh else 0
  }

  // One word, when all steps before step `upto` of section `sec` are done.
  ghost predicate FixedWord(w: int, p: Pos, c: Content, acts: seq<int>, steps: seq<seq<Step>>, what: Memory, t: Table,
                            at: seq<seq<int>>, sec: nat, upto: nat)
  {
    match c
    case Const(v) => w == v
    case LinkTo(l) =>
      if p in t.target then w == t.target[p]
      else if Local(l) then w == Behind(Pending(t, l), p)
      else l.LG? && l.n >= 10 && w == 0 - l.n
    case LabelAt(s, k, est, _) => w == if Before(s, k, sec, upto) then AtOf(at, s, k) else est
    case EndAt(s, k, est) =>
      s < |steps| && k < |steps[s]| && w == if Before(s, k, sec, upto) then Decision(acts, steps, what, t, at, s, k)
        else est
  }

  ghost predicate FixedTo(buf: map<Pos, int>, acts: seq<int>, steps: seq<seq<Step>>, what: Memory, t: Table,
                          at: seq<seq<int>>, sec: nat, upto: nat)
  {
    forall p :: p in what ==> p in buf && FixedWord(buf[p], p, what[p], acts, steps, what, t, at, sec, upto)
  }

  // What all passes after the first rely on.
  ghost predicate Built(acts: seq<int>, steps: seq<seq<Step>>, what: Memory, t: Table) {
    Shape(what, steps) && Apart(steps) && Walks(acts, steps, -1) && TargetsOk(what, t) && StraysOk(what, t)
  }

  // `at` goes on as before.
  ghost predicate Extends(at: seq<seq<int>>, at': seq<seq<int>>) {
    |at| <= |at'| && forall s :: 0 <= s < |at| ==> at[s] <= at'[s]
  }

  lemma DecisionStays(acts: seq<int>, steps: seq<seq<Step>>, what: Memory, t: Table, at: seq<seq<int>>,
                      at': seq<seq<int>>, sec: nat, upto: nat, s: nat, k: nat)
    requires AtShape(at, steps, sec, upto) && Extends(at, at') && Built(acts, steps, what, t)
    requires s < |steps| && k < |steps[s]| && Before(s, k, sec, upto + 1)
    ensures Decision(acts, steps, what, t, at', s, k) == Decision(acts, steps, what, t, at, s, k)
  {
    var p := StepPos(steps, s, k);
    if HasLabel(what, t, p) {
      var c := what[t.target[p]];
      assert HomeOk(t.target[p], c, steps);
    }
  }

  // Words of steps done before stay right as the layout goes on.
  lemma FixedMore(buf: map<Pos, int>, acts: seq<int>, steps: seq<seq<Step>>, what: Memory, t: Table,
                  at: seq<seq<int>>, sec: nat, upto: nat, buf': map<Pos, int>, at': seq<seq<int>>)
    requires Built(acts, steps, what, t) && FixedTo(buf, acts, steps, what, t, at, sec, upto)
    requires AtShape(at, steps, sec, upto) && sec < |steps| && upto < |steps[sec]| && Extends(at, at')
    requires forall p :: p in what && !Mine(what[p], sec, upto) ==> p in buf' && buf'[p] == buf[p]
    requires forall p :: p in what && Mine(what[p], sec, upto) ==>
      p in buf' && buf'[p] == if what[p].LabelAt? then at[sec][upto] else Decision(acts, steps, what, t, at, sec, upto)
    ensures FixedTo(buf', acts, steps, what, t, at', sec, upto + 1)
  {
    hide Decision;
    hide Walks;
    hide Shape;
    forall p | p in what ensures p in buf' && FixedWord(buf'[p], p, what[p], acts, steps, what, t, at', sec, upto + 1) {
      var c := what[p];
      assert FixedWord(buf[p], p, c, acts, steps, what, t, at, sec, upto);
      if (c.LabelAt? || c.EndAt?) && Before(c.s, c.k, sec, upto + 1) {
        HomeStep(what, steps, p);
        if c.EndAt? {
          DecisionStays(acts, steps, what, t, at, at', sec, upto, c.s, c.k);
        }
      }
    }
  }

  lemma HomeStep(what: Memory, steps: seq<seq<Step>>, p: Pos)
    requires Shape(what, steps) && p in what && (what[p].LabelAt? || what[p].EndAt?)
    ensures var c := what[p];
      && c.s < |steps| && c.k < |steps[c.s]| && (if c.LabelAt? then IsDef(steps[c.s][c.k]) else IsRel(steps[c.s][c.k]))
      && p == StepPos(steps, c.s, c.k) + (if c.LabelAt? then 0 else 1)
      && c.est == (if c.LabelAt? then Est(steps[c.s], c.k) else Est(steps[c.s], c.k) + 4)
  {
    assert HomeOk(p, what[p], steps);
  }

  // The word belongs to this step, and changes in this pass.
  predicate Mine(c: Content, s: nat, k: nat) {
    (c.LabelAt? || c.EndAt?) && c.s == s && c.k == k
  }

  // Only labels and branches have words that change.
  lemma MineIs(what: Memory, steps: seq<seq<Step>>, s: nat, k: nat, p: Pos)
    requires Shape(what, steps) && s < |steps| && k < |steps[s]| && p in what && Mine(what[p], s, k)
    ensures if IsDef(steps[s][k]) then what[p].LabelAt? && p == StepPos(steps, s, k)
            else IsRel(steps[s][k]) && what[p].EndAt? && p == StepPos(steps, s, k) + 1
  {
    HomeStep(what, steps, p);
  }

  // What is at the positions of a step.
  lemma StepWords(what: Memory, steps: seq<seq<Step>>, s: nat, k: nat)
    requires Shape(what, steps) && s < |steps| && k < |steps[s]|
    ensures var x, p, est := steps[s][k], StepPos(steps, s, k), Est(steps[s], k);
      && (x.Start? ==> p in what && what[p] == Const(x.p))
      && (IsDef(x) ==> p in what && what[p] == LabelAt(s, k, est, DefLab(x)))
      && (IsRef(x) ==> p in what && what[p] == LinkTo(RefLab(x)))
      && (IsRel(x) ==> p + 1 in what && what[p + 1] == EndAt(s, k, est + 4))
      && (x.Act? && (x.act.Value? || x.act.Space?) ==> p in what && what[p] == Const(x.n))
      && (IsAlign(x) ==> p in what && what[p] == Const(est + x.act.mask))
  {
    assert Placed(what, steps, s, k);
    var x, p, est := steps[s][k], StepPos(steps, s, k), Est(steps[s], k);
    assert StepContents(steps, s, k) == Contents(x, p, est, s, k);
    assert Slots(x) > 0 ==> p in StepContents(steps, s, k);
    assert IsRel(x) ==> p + 1 in StepContents(steps, s, k);
  }

  // Undefined globals are marked by their number, negated.
  predicate MarkedWord(w: int, old_w: int, p: Pos, c: Content, t: Table, idx: nat) {
    w == if c.LinkTo? && p !in t.target && c.lab.LG? && 10 <= c.lab.n < idx then 0 - c.lab.n else old_w
  }

  // The words before the second pass starts.
  lemma FixedFirst(buf: map<Pos, int>, buf': map<Pos, int>, acts: seq<int>, steps: seq<seq<Step>>, what: Memory,
                   log: seq<Event>, lgs: nat)
    requires Words(buf, what, Run(log)) && Shape(what, steps)
    requires forall p :: p in what ==> p in buf' && MarkedWord(buf'[p], buf[p], p, what[p], Run(log), lgs)
    requires forall l, p :: p in Pending(Run(log), l) ==> Local(l) || (l.LG? && 10 <= l.n < lgs)
    requires forall p :: Stray(what, Run(log), p) ==> p in buf && buf[p] == StrayWord(what, Run(log), p)
    ensures FixedTo(buf', acts, steps, what, Run(log), [[0]], 0, 0)
  {
    var t := Run(log);
    forall p | p in what ensures FixedWord(buf'[p], p, what[p], acts, steps, what, t, [[0]], 0, 0) {
      assert WordOk(buf[p], p, what[p], t);
      if what[p].LabelAt? || what[p].EndAt? {
        HomeStep(what, steps, p);
      }
    }
  }

  // The words that change at step k of section s change as they should.
  ghost predicate Rewritten(buf: map<Pos, int>, buf': map<Pos, int>, acts: seq<int>, steps: seq<seq<Step>>,
                            what: Memory, t: Table, at: seq<seq<int>>, s: nat, k: nat)
    requires s < |steps| && k < |steps[s]|
  {
    forall p :: p in what ==>
      p in buf' && p in buf && buf'[p] == (
        if !Mine(what[p], s, k) then buf[p]
        else if what[p].LabelAt? then AtOf(at, s, k)
        else Decision(acts, steps, what, t, at, s, k))
  }

  lemma CutOf(buf: map<Pos, int>, buf': map<Pos, int>, acts: seq<int>, steps: seq<seq<Step>>, what: Memory, t: Table,
              at: seq<seq<int>>, sec: nat, k: nat, s: nat, j: nat)
    requires Shape(what, steps) && sec < |steps| && k < |steps[sec]| && s < |steps| && j < |steps[s]|
    requires Rewritten(buf, buf', acts, steps, what, t, at, sec, k)
    ensures Cut(steps, buf', s, j) ==
      if s == sec && j == k then Decision(acts, steps, what, t, at, sec, k) else Cut(steps, buf, s, j)
  {
    if IsRel(steps[s][j]) {
      StepWords(what, steps, s, j);
    }
  }

  // The next step is done.
  lemma Advanced(buf: map<Pos, int>, acts: seq<int>, steps: seq<seq<Step>>, what: Memory, t: Table, at: seq<seq<int>>,
                 sec: nat, k: nat, buf': map<Pos, int>, o: int, o': int) returns (at': seq<seq<int>>)
    requires Built(acts, steps, what, t) && Laid(at, steps, buf, sec, k) &&
      FixedTo(buf, acts, steps, what, t, at, sec, k)
    requires sec < |steps| && k < |steps[sec]| && at[sec][k] == Est(steps[sec], k) + o
    requires Rewritten(buf, buf', acts, steps, what, t, at, sec, k)
    requires o' == o + Size(steps[sec][k], at[sec][k],
      Decision(acts, steps, what, t, at, sec, k)) - MaxSize(steps[sec][k])
    ensures Laid(at', steps, buf', sec, k + 1) && FixedTo(buf', acts, steps, what, t, at', sec, k + 1)
    ensures at'[sec][k + 1] == Est(steps[sec], k + 1) + o'
  {
    hide Decision;
    hide Walks;
    var next := at[sec][k] + Size(steps[sec][k], at[sec][k], Decision(acts, steps, what, t, at, sec, k));
    at' := at[sec := at[sec] + [next]];
    forall s, j | 0 <= s < |steps| && 0 <= j < |steps[s]| && Before(s, j, sec, k + 1)
      ensures Cut(steps, buf', s, j) == if s == sec && j == k then Decision(acts, steps, what, t, at, sec, k)
        else Cut(steps, buf, s, j)
    {
      CutOf(buf, buf', acts, steps, what, t, at, sec, k, s, j);
    }
    DecisionBounds(acts, steps, what, t, at, sec, k);
    LaidMore(at, steps, buf, sec, k, buf', at', next);
    FixedMore(buf, acts, steps, what, t, at, sec, k, buf', at');
  }

  lemma DecisionBounds(acts: seq<int>, steps: seq<seq<Step>>, what: Memory, t: Table, at: seq<seq<int>>, s: nat, k: nat)
    requires s < |steps| && k < |steps[s]|
    ensures 0 <= Decision(acts, steps, what, t, at, s, k) <= 4
    ensures !IsRel(steps[s][k]) ==> Decision(acts, steps, what, t, at, s, k) == 0
  {
  }

  // A step without words that change.
  lemma RewrittenPlain(buf: map<Pos, int>, acts: seq<int>, steps: seq<seq<Step>>, what: Memory, t: Table,
                       at: seq<seq<int>>, sec: nat, k: nat)
    requires Built(acts, steps, what, t) && FixedTo(buf, acts, steps, what, t, at, sec, k)
    requires sec < |steps| && k < |steps[sec]| && !IsRel(steps[sec][k]) && !IsDef(steps[sec][k])
    ensures Rewritten(buf, buf, acts, steps, what, t, at, sec, k)
  {
    forall p | p in what ensures !Mine(what[p], sec, k) {
      if Mine(what[p], sec, k) {
        MineIs(what, steps, sec, k, p);
      }
    }
  }

  // A label gets its offset.
  lemma RewrittenLabel(buf: map<Pos, int>, acts: seq<int>, steps: seq<seq<Step>>, what: Memory, t: Table,
                       at: seq<seq<int>>, sec: nat, k: nat, p: Pos, v: int)
    requires Built(acts, steps, what, t) && FixedTo(buf, acts, steps, what, t, at, sec, k)
    requires sec < |steps| && k < |steps[sec]| && IsDef(steps[sec][k]) && p == StepPos(steps, sec, k) &&
      v == AtOf(at, sec, k)
    ensures Rewritten(buf, buf[p := v], acts, steps, what, t, at, sec, k)
  {
    StepWords(what, steps, sec, k);
    forall x | x in what && Mine(what[x], sec, k) ensures x == p && what[x].LabelAt? {
      MineIs(what, steps, sec, k, x);
    }
  }

  // A branch gets what it shrinks by.
  lemma RewrittenRel(buf: map<Pos, int>, acts: seq<int>, steps: seq<seq<Step>>, what: Memory, t: Table,
                     at: seq<seq<int>>, sec: nat, k: nat, p: Pos, v: int)
    requires Built(acts, steps, what, t) && FixedTo(buf, acts, steps, what, t, at, sec, k)
    requires sec < |steps| && k < |steps[sec]| && IsRel(steps[sec][k]) && p == StepPos(steps, sec, k) + 1
    requires v == Decision(acts, steps, what, t, at, sec, k)
    ensures Rewritten(buf, buf[p := v], acts, steps, what, t, at, sec, k)
  {
    hide Decision;
    StepWords(what, steps, sec, k);
    forall x | x in what && Mine(what[x], sec, k) ensures x == p && what[x].EndAt? {
      MineIs(what, steps, sec, k, x);
    }
  }

  // ------------------------------------------------------------------------ the walk

  // The words of the next step, still as the first pass left them.
  lemma WordOfStep(buf: map<Pos, int>, acts: seq<int>, steps: seq<seq<Step>>, what: Memory, t: Table,
                   at: seq<seq<int>>, sec: nat, k: nat)
    requires Built(acts, steps, what, t) && FixedTo(buf, acts, steps, what, t, at, sec, k) && sec < |steps| &&
      k < |steps[sec]|
    ensures var x, p, est := steps[sec][k], StepPos(steps, sec, k), Est(steps[sec], k);
      && (x.Start? ==> p in buf && buf[p] == x.p)
      && (IsDef(x) ==> p in buf && buf[p] == est)
      && (IsAlign(x) ==> p in buf && buf[p] == est + x.act.mask)
      && (IsRel(x) ==> p in buf && p + 1 in buf && buf[p + 1] == est + 4)
  {
    hide Decision;
    StepWords(what, steps, sec, k);
    var x, p := steps[sec][k], StepPos(steps, sec, k);
    assert p in what ==> p in buf && FixedWord(buf[p], p, what[p], acts, steps, what, t, at, sec, k);
    assert p + 1 in what ==>
      p + 1 in buf && FixedWord(buf[p + 1], p + 1, what[p + 1], acts, steps, what, t, at, sec, k);
  }

  // Where the label of a branch is, and how far.
  lemma LabelOfRef(buf: map<Pos, int>, acts: seq<int>, steps: seq<seq<Step>>, what: Memory, t: Table,
                   at: seq<seq<int>>, sec: nat, k: nat)
    requires Built(acts, steps, what, t) && FixedTo(buf, acts, steps, what, t, at, sec, k) && sec < |steps| &&
      k < |steps[sec]|
    requires IsRel(steps[sec][k]) && StepPos(steps, sec, k) in buf
    ensures var p := StepPos(steps, sec, k);
      (buf[p] < 0 <==> p !in t.target && !Stray(what, t, p)) &&
      (Stray(what, t, p) ==>
        && buf[p] == StrayWord(what, t, p) && 0 <= SecOf(buf[p]) < |steps| && (buf[p] > p ==> sec <= SecOf(buf[p]))
        && buf[p] in buf && buf[buf[p]] == StrayValue(what, t, p)) &&
      (p in t.target ==>
        && HasLabel(what, t, p) && t.target[p] == buf[p] && buf[p] in what && buf[p] in buf
        && var c := what[buf[p]];
           && c.LabelAt? && c.s < |steps| && c.k < |steps[c.s]| && SecOf(buf[p]) == c.s
           && (buf[p] > p <==> Before(sec, k, c.s, c.k))
           && buf[buf[p]] == if Before(sec, k, c.s, c.k) then Est(steps[c.s], c.k) else AtOf(at, c.s, c.k))
  {
    hide Decision;
    hide Walks;
    StepWords(what, steps, sec, k);
    var p := StepPos(steps, sec, k);
    assert FixedWord(buf[p], p, what[p], acts, steps, what, t, at, sec, k);
    if p in t.target {
      var l := t.target[p];
      assert HomeOk(l, what[l], steps);
      HomeStep(what, steps, l);
      OrderOfPositions(steps, sec, k, what[l].s, what[l].k);
      OrderOfPositions(steps, what[l].s, what[l].k, sec, k);
      assert FixedWord(buf[l], l, what[l], acts, steps, what, t, at, sec, k);
    } else if Stray(what, t, p) {
      var w := StrayWord(what, t, p);
      assert FixedWord(buf[w], w, what[w], acts, steps, what, t, at, sec, k);
      assert Used(w, steps) && Used(p, steps);
      OrderOfPositions(steps, sec, k, sec, k);
    }
  }

  lemma SectionBegins(acts: seq<int>, steps: seq<seq<Step>>, what: Memory, t: Table, sec: nat)
    requires Built(acts, steps, what, t) && sec < |steps|
    ensures StepPos(steps, sec, 0) == SecBase(sec) && (steps[sec] != [] ==> steps[sec][0].Start?) &&
      Est(steps[sec], 0) == 0
  {
  }

  // The end of a section is where its steps end.
  lemma EndOfSection(steps: seq<seq<Step>>, sec: nat, k: nat)
    requires sec < |steps| && k <= |steps[sec]| && (k < |steps[sec]| ==> steps[sec][k].Start?)
    ensures StepPos(steps, sec, k) == StepPos(steps, sec, |steps[sec]|) <==> k == |steps[sec]|
  {
    if k < |steps[sec]| {
      SlotsAscend(steps[sec], k, |steps[sec]|);
    }
  }

  // What follows a step.
  lemma NextStep(acts: seq<int>, steps: seq<seq<Step>>, sec: nat, k: nat)
    requires Walks(acts, steps, -1) && sec < |steps| && k < |steps[sec]|
    ensures var x := steps[sec][k];
      && (x.Start? ==> k + 1 < |steps[sec]| && steps[sec][k + 1].Act? && steps[sec][k + 1].q == x.p)
      && (x.Act? ==> x.act == Decode(acts, x.q).0 && !x.act.Other?)
      && (x.Act? && Ends(x.act) && k + 1 < |steps[sec]| ==> steps[sec][k + 1].Start?)
      && (x.Act? && !Ends(x.act) ==>
            k + 1 < |steps[sec]| && steps[sec][k + 1].Act? && steps[sec][k + 1].q == x.q + Decode(acts, x.q).1)
  {
    assert Walk(acts, steps[sec]) && Finished(steps[sec]) && Decoded(acts, steps[sec][k]);
    assert k + 1 < |steps[sec]| ==> Succeeds(acts, steps[sec][k], steps[sec][k + 1]);
  }

  lemma LaidHere(at: seq<seq<int>>, steps: seq<seq<Step>>, buf: map<Pos, int>, sec: nat, k: nat)
    requires Laid(at, steps, buf, sec, k)
    ensures AtOf(at, sec, k) == at[sec][k] && |at| == sec + 1 && |at[sec]| == k + 1
  {
  }

  lemma LaidEnd(at: seq<seq<int>>, steps: seq<seq<Step>>, buf: map<Pos, int>, sec: nat)
    requires sec < |steps| && Laid(at, steps, buf, sec, |steps[sec]|)
    ensures |at| == sec + 1 && |at[sec]| == |steps[sec]| + 1
  {
  }

  // Nothing is left to do in this section.
  lemma FixedNext(buf: map<Pos, int>, acts: seq<int>, steps: seq<seq<Step>>, what: Memory, t: Table,
                  at: seq<seq<int>>, sec: nat)
    requires Built(acts, steps, what, t) && sec < |steps| && Laid(at, steps, buf, sec, |steps[sec]|)
    requires FixedTo(buf, acts, steps, what, t, at, sec, |steps[sec]|)
    ensures FixedTo(buf, acts, steps, what, t, at + [[at[sec][|steps[sec]|]]], sec + 1, 0)
  {
    hide Decision;
    var at' := at + [[at[sec][|steps[sec]|]]];
    forall p | p in what ensures p in buf && FixedWord(buf[p], p, what[p], acts, steps, what, t, at', sec + 1, 0) {
      assert FixedWord(buf[p], p, what[p], acts, steps, what, t, at, sec, |steps[sec]|);
      var c := what[p];
      if c.LabelAt? || c.EndAt? {
        HomeStep(what, steps, p);
        if c.EndAt? && Before(c.s, c.k, sec + 1, 0) {
          DecisionStays(acts, steps, what, t, at, at', sec, |steps[sec]|, c.s, c.k);
        }
      }
    }
  }

  // ------------------------------------------------------------------- the finished link

  ghost predicate Fixed(buf: map<Pos, int>, acts: seq<int>, steps: seq<seq<Step>>, what: Memory, t: Table,
                        at: seq<seq<int>>, size: int) {
    && Laid(at, steps, buf, |steps|, 0) && FixedTo(buf, acts, steps, what, t, at, |steps|, 0) && size == at[|steps|][0]
  }

  // Every branch that was shrunk reaches its label with a signed byte.
  lemma ShortBranches(buf: map<Pos, int>, acts: seq<int>, steps: seq<seq<Step>>, what: Memory, t: Table,
                      at: seq<seq<int>>, size: int, s: nat, k: nat)
    requires Built(acts, steps, what, t) && Fixed(buf, acts, steps, what, t, at, size)
    requires s < |steps| && k < |steps[s]| && IsRel(steps[s][k]) && Cut(steps, buf, s, k) > 0
    requires !Stray(what, t, StepPos(steps, s, k))
    ensures var p := StepPos(steps, s, k);
      && HasLabel(what, t, p)
      && var c := what[t.target[p]];
         c.s < |steps| && c.k < |steps[c.s]| && IsDef(steps[c.s][c.k]) && -128 <= at[c.s][c.k] - at[s][k + 1] <= 127
  {
    hide Walks;
    var p := StepPos(steps, s, k);
    StepWords(what, steps, s, k);
    assert FixedWord(buf[p + 1], p + 1, what[p + 1], acts, steps, what, t, at, |steps|, 0);
    assert Cut(steps, buf, s, k) == Decision(acts, steps, what, t, at, s, k);
    var c := what[t.target[p]];
    HomeStep(what, steps, t.target[p]);
    assert StepLaid(at, steps, buf, s, k);
    if Before(s, k, c.s, c.k) {
      ForwardReaches(at, steps, buf, |steps|, 0, s, k, c.s, c.k);
    } else {
      BackwardReaches(at, steps, buf, |steps|, 0, s, k, c.s, c.k);
    }
  }
}
