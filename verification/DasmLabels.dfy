/**
 What the references in assembled code refer to, as a plain list of pending references for each
 label: the specification of the reference chains that dasm_put threads through its buffers.
 */
module DasmLabels {

  // A position in the section buffers: the section in the upper bits, the index in the lower 24.
  type Pos = int

  // Numbered labels (local below 10, global above) and PC labels.
  datatype Lab = LG(n: nat) | PC(n: nat)

  predicate Local(l: Lab) {
    l.LG? && 1 <= l.n < 10
  }

  // A backward reference to one of these is rejected unless the label is known.
  predicate MustBeKnown(l: Lab) {
    l.LG? && l.n < 10
  }

  datatype Table = Table(defs: map<Lab, Pos>, pending: map<Lab, seq<Pos>>, target: map<Pos, Pos>)

  // What dasm_put and dasm_checkstep did, in the order of time. Forget: local labels are cleared.
  datatype Event = Ref(pos: Pos, lab: Lab, fwd: bool) | Def(pos: Pos, lab: Lab) | Forget

  function Pending(t: Table, l: Lab): seq<Pos> {
    if l in t.pending then t.pending[l] else []
  }

  // No reference waits for the definition of a local label.
  ghost predicate NoLocalWaits(log: seq<Event>) {
    forall l :: Local(l) ==> Pending(Run(log), l) == []
  }

  // The label is defined, and nothing waits for another definition of it.
  predicate Known(t: Table, l: Lab) {
    l in t.defs && Pending(t, l) == []
  }

  function Apply(t: Table, e: Event): Table {
    match e
    case Ref(pos, l, fwd) =>
      if !fwd && Known(t, l) then t.(target := t.target[pos := t.defs[l]])
      else t.(pending := t.pending[l := [pos] + Pending(t, l)])
    case Def(pos, l) =>
      Table(t.defs[l := pos], t.pending[l := []], t.target + map p | p in Pending(t, l) :: pos)
    case Forget =>
      t.(defs := map l | l in t.defs && !Local(l) :: t.defs[l])
  }

  function Run(log: seq<Event>): Table {
    if log == [] then Table(map[], map[], map[]) else Apply(Run(log[..|log| - 1]), log[|log| - 1])
  }

  lemma RunMore(log: seq<Event>, e: Event)
    ensures Run(log + [e]) == Apply(Run(log), e)
  {
    assert (log + [e])[..|log|] == log;
  }

  // Only local labels are referenced forward, and only known ones of the small numbers backward.
  ghost predicate Accepted(log: seq<Event>) {
    forall i :: 0 <= i < |log| && log[i].Ref? ==> Admissible(Run(log[..i]), log[i].lab, log[i].fwd)
  }

  predicate Admissible(t: Table, l: Lab, fwd: bool) {
    if fwd then Local(l) else MustBeKnown(l) ==> Known(t, l)
  }

  lemma AcceptedMore(log: seq<Event>, e: Event)
    requires Accepted(log) && (e.Ref? ==> Admissible(Run(log), e.lab, e.fwd))
    ensures Accepted(log + [e])
  {
    var log' := log + [e];
    forall i | 0 <= i < |log'| && log'[i].Ref? ensures Admissible(Run(log'[..i]), log'[i].lab, log'[i].fwd) {
      assert log'[..i] == if i < |log| then log[..i] else log;
      assert i < |log| ==> log[i] == log'[i];
    }
  }

  // ------------------------------------------------------- definitions before and after

  // The first definition of a label at or after event i.
  function NextDef(log: seq<Event>, i: nat, l: Lab): (j: nat)
    requires i <= |log|
    ensures i <= j <= |log| && (j < |log| ==> log[j].Def? && log[j].lab == l)
    ensures forall k :: i <= k < j ==> !(log[k].Def? && log[k].lab == l)
    decreases |log| - i
  {
    if i == |log| || (log[i].Def? && log[i].lab == l) then i else NextDef(log, i + 1, l)
  }

  // The last definition of a label before event i that was not forgotten; -1 if there is none.
  function LastDef(log: seq<Event>, i: nat, l: Lab): (j: int)
    requires i <= |log|
    ensures -1 <= j < i && (j >= 0 ==> log[j].Def? && log[j].lab == l)
    ensures forall k :: j < k < i && log[k].Def? && log[k].lab == l ==>
      Local(l) && exists m :: k < m < i && log[m].Forget?
  {
    if i == 0 then -1
    else if log[i - 1].Def? && log[i - 1].lab == l then i - 1
    else if log[i - 1].Forget? && Local(l) then -1
    else LastDef(log, i - 1, l)
  }

  // No reference asked for a later definition of l between events i and j.
  ghost predicate NoneWaits(log: seq<Event>, i: int, j: nat, l: Lab) {
    forall k :: i < k < j && 0 <= k < |log| && log[k].Ref? && log[k].lab == l ==> !log[k].fwd
  }

  lemma NoneWaitsMore(log: seq<Event>, j: int, l: Lab)
    requires log != []
    ensures var n := |log| - 1;
      NoneWaits(log, j, |log|, l) <==>
        NoneWaits(log[..n], j, n, l) && !(j < n && log[n].Ref? && log[n].lab == l && log[n].fwd)
  {
    var n := |log| - 1;
    assert forall k :: 0 <= k < n ==> log[..n][k] == log[k];
  }

  lemma NoneWaitsYet(log: seq<Event>, l: Lab)
    ensures NoneWaits(log, |log| - 1, |log|, l)
  {
  }

  // A label is known exactly if it has been defined, and no reference since asked for a later definition.
  lemma {:induction false} KnownExactly(log: seq<Event>, l: Lab)
    ensures Known(Run(log), l) <==> LastDef(log, |log|, l) >= 0 && NoneWaits(log, LastDef(log, |log|, l), |log|, l)
    ensures l in Run(log).defs <==> LastDef(log, |log|, l) >= 0
    ensures LastDef(log, |log|, l) >= 0 ==> Run(log).defs[l] == log[LastDef(log, |log|, l)].pos
  {
    hide NoneWaits;
    if log != [] {
      var n := |log| - 1;
      var before := log[..n];
      KnownExactly(before, l);
      LastDefPrefix(log, n, n, l);
      NoneWaitsMore(log, LastDef(log, n, l), l);
      NoneWaitsYet(log, l);
    }
  }

  lemma {:induction false} LastDefPrefix(log: seq<Event>, n: nat, i: nat, l: Lab)
    requires i <= n <= |log|
    ensures LastDef(log[..n], i, l) == LastDef(log, i, l)
  {
    if i > 0 {
      LastDefPrefix(log, n, i - 1, l);
    }
  }

  lemma {:induction false} NextDefPrefix(log: seq<Event>, n: nat, i: nat, l: Lab)
    requires i <= n <= |log|
    ensures NextDef(log[..n], i, l) == if NextDef(log, i, l) < n then NextDef(log, i, l) else n
    decreases n - i
  {
    if i < n && !(log[i].Def? && log[i].lab == l) {
      NextDefPrefix(log, n, i + 1, l);
    }
  }

  // ------------------------------------------------------------ what references refer to

  // References have positions of their own.
  ghost predicate DistinctRefs(log: seq<Event>) {
    forall i, j :: 0 <= i < j < |log| && log[i].Ref? && log[j].Ref? ==> log[i].pos != log[j].pos
  }

  ghost predicate RefTo(log: seq<Event>, p: Pos, l: Lab) {
    exists i :: 0 <= i < |log| && log[i].Ref? && log[i].pos == p && log[i].lab == l
  }

  ghost predicate SomeRef(log: seq<Event>, p: Pos) {
    exists i :: 0 <= i < |log| && log[i].Ref? && log[i].pos == p
  }

  lemma RefsPrefix(log: seq<Event>, n: nat, p: Pos, l: Lab)
    requires n <= |log|
    ensures RefTo(log[..n], p, l) ==> RefTo(log, p, l)
    ensures SomeRef(log[..n], p) ==> SomeRef(log, p)
  {
    if RefTo(log[..n], p, l) {
      var i :| 0 <= i < n && log[..n][i].Ref? && log[..n][i].pos == p && log[..n][i].lab == l;
      assert log[i].Ref? && log[i].pos == p && log[i].lab == l;
    }
    if SomeRef(log[..n], p) {
      var i :| 0 <= i < n && log[..n][i].Ref? && log[..n][i].pos == p;
      assert log[i].Ref? && log[i].pos == p;
    }
  }

  // Only references wait or have a target, and none does both.
  lemma {:induction false} Settled(log: seq<Event>, p: Pos, l: Lab)
    requires DistinctRefs(log)
    ensures p in Run(log).target ==> SomeRef(log, p) && p !in Pending(Run(log), l)
    ensures p in Pending(Run(log), l) ==> RefTo(log, p, l)
  {
    if log != [] {
      var n := |log| - 1;
      var before, e := log[..n], log[n];
      Settled(before, p, l);
      RefsPrefix(log, n, p, l);
      if e.Ref? {
        assert log[n].Ref? && log[n].pos == e.pos && log[n].lab == e.lab;
        NotBefore(log, n);
        Settled(before, e.pos, l);
        assert SomeRef(before, e.pos) <==> exists i :: 0 <= i < n && log[i].Ref? && log[i].pos == e.pos by {
          assert forall i :: 0 <= i < n ==> before[i] == log[i];
        }
      } else if e.Def? {
        Settled(before, p, e.lab);
        if p in Pending(Run(before), e.lab) && p in Pending(Run(before), l) {
          SameLabel(before, p, l, e.lab);
        }
        RefIsSome(before, p, e.lab);
        RefsPrefix(log, n, p, e.lab);
      }
    }
  }

  lemma RefIsSome(log: seq<Event>, p: Pos, l: Lab)
    ensures RefTo(log, p, l) ==> SomeRef(log, p)
  {
  }

  lemma SameLabel(log: seq<Event>, p: Pos, l: Lab, m: Lab)
    requires DistinctRefs(log) && RefTo(log, p, l) && RefTo(log, p, m)
    ensures l == m
  {
    var i :| 0 <= i < |log| && log[i].Ref? && log[i].pos == p && log[i].lab == l;
    var j :| 0 <= j < |log| && log[j].Ref? && log[j].pos == p && log[j].lab == m;
    assert i == j;
  }

  lemma NotBefore(log: seq<Event>, n: nat)
    requires DistinctRefs(log) && n < |log| && log[n].Ref?
    ensures !SomeRef(log[..n], log[n].pos) && forall l :: !RefTo(log[..n], log[n].pos, l)
  {
    forall i | 0 <= i < n && log[..n][i].Ref? ensures log[..n][i].pos != log[n].pos {
      assert log[i].pos != log[n].pos;
    }
  }

  ghost predicate NoDuplicates(ps: seq<Pos>) {
    forall i, j :: 0 <= i < j < |ps| ==> ps[i] != ps[j]
  }

  lemma {:induction false} WaitOnce(log: seq<Event>, l: Lab)
    requires DistinctRefs(log)
    ensures NoDuplicates(Pending(Run(log), l))
  {
    if log != [] {
      var n := |log| - 1;
      WaitOnce(log[..n], l);
      if log[n].Ref? {
        NotBefore(log, n);
        Settled(log[..n], log[n].pos, l);
      }
    }
  }

  // What is behind p in a chain; 0 at its end.
  function Behind(ps: seq<Pos>, p: Pos): (q: Pos)
    ensures q == 0 || q in ps
  {
    if |ps| < 2 then 0 else if ps[0] == p then ps[1] else Behind(ps[1..], p)
  }

  lemma {:induction false} BehindAt(ps: seq<Pos>, j: nat)
    requires NoDuplicates(ps) && j < |ps|
    ensures Behind(ps, ps[j]) == if j + 1 < |ps| then ps[j + 1] else 0
  {
    if 0 < j {
      BehindAt(ps[1..], j - 1);
    }
  }

  // A reference to a known label gets its most recent definition; any other one gets the next
  // definition, and waits for it.
  lemma {:induction false} RefersTo(log: seq<Event>, i: nat)
    requires DistinctRefs(log) && i < |log| && log[i].Ref?
    ensures var e, t := log[i], Run(log);
      if !e.fwd && Known(Run(log[..i]), e.lab) then
        LastDef(log, i, e.lab) >= 0 && e.pos in t.target && t.target[e.pos] == log[LastDef(log, i, e.lab)].pos
      else if NextDef(log, i, e.lab) < |log| then
        e.pos in t.target && t.target[e.pos] == log[NextDef(log, i, e.lab)].pos
      else
        e.pos in Pending(t, e.lab)
  {
    var n := |log| - 1;
    var e, before := log[i], log[..n];
    if i == n {
      KnownExactly(before, e.lab);
      LastDefPrefix(log, n, n, e.lab);
    } else {
      assert before[..i] == log[..i];
      RefersTo(before, i);
      LastDefPrefix(log, n, i, e.lab);
      NextDefPrefix(log, n, i, e.lab);
      Undisturbed(log, i);
    }
  }

  // The last event does not disturb a reference made before, unless that waits for it.
  lemma Undisturbed(log: seq<Event>, i: nat)
    requires DistinctRefs(log) && i < |log| - 1 && log[i].Ref?
    ensures var e, d, b, t := log[i], log[|log| - 1], Run(log[..|log| - 1]), Run(log);
      && (e.pos in b.target ==> e.pos in t.target && t.target[e.pos] == b.target[e.pos])
      && (e.pos in Pending(b, e.lab) ==>
            if d.Def? && d.lab == e.lab then e.pos in t.target && t.target[e.pos] == d.pos
              else e.pos in Pending(t, e.lab))
  {
    var n := |log| - 1;
    var e, d, before := log[i], log[n], log[..n];
    if d.Def? {
      Settled(before, e.pos, d.lab);
      Settled(before, e.pos, e.lab);
    }
  }

  // No reference ever waits for label 0.
  lemma NoneWaitsForZero(log: seq<Event>)
    requires DistinctRefs(log) && Accepted(log)
    ensures Pending(Run(log), LG(0)) == []
  {
    var ps := Pending(Run(log), LG(0));
    if ps != [] {
      Settled(log, ps[0], LG(0));
      var i :| 0 <= i < |log| && log[i].Ref? && log[i].pos == ps[0] && log[i].lab == LG(0);
      RefersTo(log, i);
    }
  }
}
