/** Where the code ends up: the estimates of the first pass, and the layout the second pass settles on. */
module DasmLayout {
  import opened DasmActions
  import opened DasmLabels
  import opened DasmMemory

  // The estimated size of the sections before s, and the estimated position of step k in section s.
  function SectionStart(steps: seq<seq<Step>>, s: nat): nat
    requires s <= |steps|
  {
    if s == 0 then 0 else SectionStart(steps, s - 1) + Est(steps[s - 1], |steps[s - 1]|)
  }

  function EstAll(steps: seq<seq<Step>>, s: nat, k: nat): nat
    requires s < |steps| && k <= |steps[s]|
  {
    SectionStart(steps, s) + Est(steps[s], k)
  }

  // Bytes up to the next multiple of mask + 1.
  function Pad(at: int, mask: nat): (n: nat)
    ensures n <= mask
  {
    var r := at % (mask + 1);
    if r == 0 then 0 else mask + 1 - r
  }

  // Only the position behind the padding is aligned.
  lemma PadFits(at: int, mask: nat, m: nat)
    requires m <= Pad(at, mask)
    ensures (at + m) % (mask + 1) == 0 <==> m == Pad(at, mask)
  {
    var d := mask + 1;
    var q, r := at / d, at % d;
    assert at == q * d + r;
    if r != 0 && m == d - r {
      assert at + m == (q + 1) * d + 0;
      MultipleMod(q + 1, d, 0);
    } else {
      MultipleMod(q, d, r + m);
    }
  }

  lemma MultipleMod(q: int, d: nat, r: int)
    requires 0 <= r < d
    ensures (q * d + r) % d == r
  {
    var x := q * d + r;
    var e := q - x / d;
    assert x == (x / d) * d + x % d;
    assert e * d == x % d - r;
    assert e >= 1 ==> e * d >= d;
    assert e <= -1 ==> e * d <= -1 * d;
  }

  // The adjustment of the offset at an alignment leaves exactly the padding.
  lemma PadAdjusts(at: int, mask: nat)
    ensures at + mask - (at + mask) % (mask + 1) == at + Pad(at, mask)
  {
    var d := mask + 1;
    var q, r := at / d, at % d;
    assert at == q * d + r;
    if r == 0 {
      MultipleMod(q, d, mask);
    } else {
      assert at + mask == (q + 1) * d + (r - 1);
      MultipleMod(q + 1, d, r - 1);
    }
  }

  // The size of a step in the final layout, from position `at`; `cut` is what a branch shrinks by.
  function Size(x: Step, at: int, cut: int): int {
    if IsRel(x) then 4 - cut
    else if IsAlign(x) then Pad(at, x.act.mask)
    else MaxSize(x)
  }

  lemma SizeBounds(x: Step, at: int, cut: int)
    requires 0 <= cut <= 4
    ensures 0 <= Size(x, at, cut) <= MaxSize(x)
  {
  }

  // What the second pass stored for a branch.
  function Cut(steps: seq<seq<Step>>, buf: map<Pos, int>, s: nat, k: nat): int
    requires s < |steps| && k < |steps[s]|
  {
    var p := StepPos(steps, s, k) + 1;
    if IsRel(steps[s][k]) && p in buf then buf[p] else 0
  }

  // ------------------------------------------------------------------------ the layout

  // Steps in the order they are emitted.
  predicate Before(s: nat, k: nat, s': nat, k': nat) {
    s < s' || (s == s' && k < k')
  }

  // at[s][k] is where step k of section s starts, for all steps before step `upto` of section `sec`.
  ghost predicate AtShape(at: seq<seq<int>>, steps: seq<seq<Step>>, sec: nat, upto: nat) {
    && sec <= |steps| && |at| == sec + 1 && |at[sec]| == upto + 1
    && (if sec < |steps| then upto <= |steps[sec]| else upto == 0)
    && forall s :: 0 <= s < sec ==> |at[s]| == |steps[s]| + 1
  }

  ghost predicate StepLaid(at: seq<seq<int>>, steps: seq<seq<Step>>, buf: map<Pos, int>, s: nat, k: nat)
    requires s < |at| && s < |steps| && k < |steps[s]| && k + 1 < |at[s]|
  {
    && 0 <= Cut(steps, buf, s, k) <= 4
    && at[s][k + 1] == at[s][k] + Size(steps[s][k], at[s][k], Cut(steps, buf, s, k))
  }

  ghost predicate Laid(at: seq<seq<int>>, steps: seq<seq<Step>>, buf: map<Pos, int>, sec: nat, upto: nat) {
    && AtShape(at, steps, sec, upto) && at[0][0] == 0
    && (forall s :: 0 < s <= sec ==> at[s][0] == at[s - 1][|steps[s - 1]|])
    && (forall s, k {:trigger StepLaid(at, steps, buf, s, k)} ::
          0 <= s < |steps| && 0 <= k < |steps[s]| && Before(s, k, sec, upto) ==>
          StepLaid(at, steps, buf, s, k))
  }

  // Positions ascend, and fall behind the estimates more and more.
  lemma {:induction false} Slack(at: seq<seq<int>>, steps: seq<seq<Step>>, buf: map<Pos, int>, sec: nat, upto: nat,
                                 s: nat, k: nat, s': nat, k': nat)
    requires Laid(at, steps, buf, sec, upto)
    requires s <= s' < |steps| && k <= |steps[s]| && k' <= |steps[s']| && (s' < sec || (s' == sec && k' <= upto))
    requires s == s' ==> k <= k'
    ensures at[s][k] <= at[s'][k'] && EstAll(steps, s, k) - at[s][k] <= EstAll(steps, s', k') - at[s'][k']
    decreases s', k'
  {
    if s != s' || k != k' {
      if k' > 0 {
        Slack(at, steps, buf, sec, upto, s, k, s', k' - 1);
        assert StepLaid(at, steps, buf, s', k' - 1);
        SizeBounds(steps[s'][k' - 1], at[s'][k' - 1], Cut(steps, buf, s', k' - 1));
      } else {
        Slack(at, steps, buf, sec, upto, s, k, s' - 1, |steps[s' - 1]|);
      }
    }
  }

  // A branch that was shrunk because the estimates said so reaches its label.
  lemma ForwardReaches(at: seq<seq<int>>, steps: seq<seq<Step>>, buf: map<Pos, int>, sec: nat, upto: nat,
                       s: nat, k: nat, s': nat, k': nat)
    requires Laid(at, steps, buf, sec, upto) && s <= s' < |steps| && k < |steps[s]| && k' <= |steps[s']|
    requires (s' < sec || (s' == sec && k' <= upto)) && Before(s, k, s', k')
    requires EstAll(steps, s', k') - EstAll(steps, s, k + 1) <= 127
    ensures 0 <= at[s'][k'] - at[s][k + 1] <= 127
  {
    Slack(at, steps, buf, sec, upto, s, k + 1, s', k');
  }

  lemma BackwardReaches(at: seq<seq<int>>, steps: seq<seq<Step>>, buf: map<Pos, int>, sec: nat, upto: nat,
                        s: nat, k: nat, s': nat, k': nat)
    requires Laid(at, steps, buf, sec, upto) && s < |steps| && k < |steps[s]| && Before(s, k, sec, upto)
    requires s' <= s && k' <= |steps[s']| && !Before(s, k, s', k')
    ensures at[s'][k'] <= at[s][k + 1]
  {
    Slack(at, steps, buf, sec, upto, s', k', s, k + 1);
  }

  // The next step is laid out.
  lemma LaidMore(at: seq<seq<int>>, steps: seq<seq<Step>>, buf: map<Pos, int>, sec: nat, upto: nat,
                 buf': map<Pos, int>, at': seq<seq<int>>, next: int)
    requires Laid(at, steps, buf, sec, upto) && sec < |steps| && upto < |steps[sec]|
    requires forall s, k :: 0 <= s < |steps| && 0 <= k < |steps[s]| && Before(s, k, sec, upto) ==>
      Cut(steps, buf', s, k) == Cut(steps, buf, s, k)
    requires at' == at[sec := at[sec] + [next]] && 0 <= Cut(steps, buf', sec, upto) <= 4
    requires next == at[sec][upto] + Size(steps[sec][upto], at[sec][upto], Cut(steps, buf', sec, upto))
    ensures Laid(at', steps, buf', sec, upto + 1)
  {
    forall s, k | 0 <= s < |steps| && 0 <= k < |steps[s]| && Before(s, k, sec, upto + 1)
      ensures StepLaid(at', steps, buf', s, k)
    {
      if s != sec || k != upto {
        assert StepLaid(at, steps, buf, s, k);
      }
    }
  }

  // The next section starts right behind this one.
  lemma LaidSection(at: seq<seq<int>>, steps: seq<seq<Step>>, buf: map<Pos, int>, sec: nat)
    requires sec < |steps| && Laid(at, steps, buf, sec, |steps[sec]|)
    ensures Laid(at + [[at[sec][|steps[sec]|]]], steps, buf, sec + 1, 0)
  {
    var at' := at + [[at[sec][|steps[sec]|]]];
    forall s, k | 0 <= s < |steps| && 0 <= k < |steps[s]| && Before(s, k, sec + 1, 0)
      ensures StepLaid(at', steps, buf, s, k)
    {
      assert StepLaid(at, steps, buf, s, k);
    }
  }

  // ------------------------------------------------------------- positions and their order

  lemma OrderOfPositions(steps: seq<seq<Step>>, s: nat, k: nat, s': nat, k': nat)
    requires Apart(steps) && s < |steps| && s' < |steps| && k < |steps[s]| && k' < |steps[s']|
    requires Slots(steps[s][k]) > 0 && Slots(steps[s'][k']) > 0
    ensures StepPos(steps, s, k) < StepPos(steps, s', k') <==> Before(s, k, s', k')
    ensures SecOf(StepPos(steps, s, k)) == s
    ensures StepPos(steps, s, k) == StepPos(steps, s', k') ==> s == s' && k == k'
  {
    SlotsAscend(steps[s], k, |steps[s]|);
    SlotsAscend(steps[s'], k', |steps[s']|);
    PosInSection(s, Slot(steps[s], k));
    PosInSection(s', Slot(steps[s'], k'));
    if s == s' && k < k' {
      SlotsAscend(steps[s], k, k');
    } else if s == s' && k' < k {
      SlotsAscend(steps[s], k', k);
    }
  }

  // The estimated distance across sections is the sum of the sizes between.
  lemma {:induction false} StartsApart(steps: seq<seq<Step>>, ofs: seq<int>, s: nat, s': nat)
    requires s <= s' <= |steps| && |ofs| == |steps| && forall i :: 0 <= i < |steps| ==>
      ofs[i] == Est(steps[i], |steps[i]|)
    ensures SectionStart(steps, s') - SectionStart(steps, s) == SumOfs(ofs, s, s')
  {
    if s < s' {
      StartsApart(steps, ofs, s, s' - 1);
    }
  }

  function SumOfs(ofs: seq<int>, i: nat, j: nat): int
    requires j <= |ofs|
  {
    if j <= i then 0 else SumOfs(ofs, i, j - 1) + ofs[j - 1]
  }
}
