/** The machine code of a whole program: all calls of dasm_put, then link and encode. */
module DasmBuild {
  import opened DasmActions
  import opened DasmAssembler
  import opened DasmBytes
  import opened DasmImage
  import opened DasmLabels
  import opened DasmLayout
  import opened DasmLink
  import opened DasmMemory
  import opened DasmProgram

  // ---------------------------------------------------------------- references and the log

  predicate RefAt(steps: seq<seq<Step>>, s: nat, k: nat) {
    s < |steps| && k < |steps[s]| && IsRef(steps[s][k])
  }

  function RefEvent(steps: seq<seq<Step>>, s: nat, k: nat): Event
    requires RefAt(steps, s, k)
  {
    Ref(StepPos(steps, s, k), RefLab(steps[s][k]), IsFwd(steps[s][k]))
  }

  // The references in the log are those of the steps.
  ghost predicate Listed(steps: seq<seq<Step>>, log: seq<Event>) {
    && (forall s: nat, k: nat :: RefAt(steps, s, k) ==> RefEvent(steps, s, k) in log)
    && (forall e :: e in log && e.Ref? ==> exists s: nat, k: nat :: RefAt(steps, s, k) && e == RefEvent(steps, s, k))
  }

  lemma {:induction false} EventsListed(steps: seq<Step>, base: Pos, i: nat, j: nat)
    requires j <= |steps|
    ensures forall k :: i <= k < j && IsRef(steps[k]) ==>
      Ref(base + Slot(steps, k), RefLab(steps[k]), IsFwd(steps[k])) in Events(steps, base, i, j)
    ensures forall e :: e in Events(steps, base, i, j) && e.Ref? ==>
      exists k :: i <= k < j && IsRef(steps[k]) && e == Ref(base + Slot(steps, k), RefLab(steps[k]), IsFwd(steps[k]))
  {
    if i < j {
      EventsListed(steps, base, i, j - 1);
    }
  }

  // Steps that were there before have their places.
  lemma RefStays(acts: seq<int>, s: Stage, c: Call, i: nat, k: nat)
    requires s.section < |s.steps| && i < |s.steps| && k < |s.steps[i]|
    ensures var s' := After(acts, s, c).steps;
      RefAt(s', i, k) == RefAt(s.steps, i, k) && (RefAt(s', i, k) ==> RefEvent(s', i, k) == RefEvent(s.steps, i, k))
  {
    if i == s.section {
      PrefixSums(s.steps[i], Added(acts, c), k);
    }
  }

  lemma ListedMore(acts: seq<int>, s: Stage, c: Call)
    requires Listed(s.steps, s.log)
    ensures Listed(After(acts, s, c).steps, After(acts, s, c).log)
  {
    hide Added, RefLab, IsFwd, SecBase, Entered, Events;
    if s.section < |s.steps| {
      var cur, s' := s.section, After(acts, s, c);
      var now, n := s'.steps[cur], |s.steps[cur]|;
      EventsListed(now, SecBase(cur), n, |now|);
      forall i: nat, k: nat | RefAt(s'.steps, i, k) ensures RefEvent(s'.steps, i, k) in s'.log {
        if i != cur || k < n {
          RefStays(acts, s, c, i, k);
        }
      }
      forall e | e in s'.log && e.Ref?
        ensures exists i: nat, k: nat :: RefAt(s'.steps, i, k) && e == RefEvent(s'.steps, i, k)
      {
        if e in s.log {
          var i: nat, k: nat :| RefAt(s.steps, i, k) && e == RefEvent(s.steps, i, k);
          RefStays(acts, s, c, i, k);
        } else {
          var k :| n <= k < |now| && IsRef(now[k]) &&
            e == Ref(SecBase(cur) + Slot(now, k), RefLab(now[k]), IsFwd(now[k]));
          assert RefAt(s'.steps, cur, k) && e == RefEvent(s'.steps, cur, k);
        }
      }
    }
  }

  lemma {:induction false} StagesListed(acts: seq<int>, sections: nat, calls: seq<Call>)
    ensures var s := Stages(acts, sections, calls); Listed(s.steps, s.log) && |s.steps| == sections
  {
    if calls != [] {
      StagesListed(acts, sections, calls[..|calls| - 1]);
      ListedMore(acts, Stages(acts, sections, calls[..|calls| - 1]), calls[|calls| - 1]);
    }
  }

  // ------------------------------------------------------------- what references come to

  // The definition that reference i of the log means: the most recent one of a known label, or else the
  // next one.
  function Meant(log: seq<Event>, i: nat): int
    requires i < |log| && log[i].Ref?
  {
    if !log[i].fwd && Known(Run(log[..i]), log[i].lab) then LastDef(log, i, log[i].lab) else NextDef(log, i, log[i].lab)
  }

  // The offset of the code that follows the label at p.
  function Place(c: Code, p: Pos): int {
    if p in c.what && c.what[p].LabelAt? then AtOf(c.at, c.what[p].s, c.what[p].k) else 0
  }

  // A label of that name was put down at p, and becomes a place in the code.
  ghost predicate LabelIs(c: Code, p: Pos, l: Lab) {
    && p in c.what && c.what[p].LabelAt?
    && var d := c.what[p];
       && d.s < |c.steps| && d.k < |c.steps[d.s]| && IsDef(c.steps[d.s][d.k]) && DefLab(c.steps[d.s][d.k]) == l
       && p == StepPos(c.steps, d.s, d.k) && 0 <= Place(c, p) <= c.size
  }

  // The bytes of the reference at step k of section s lead to the definition that it means.
  ghost predicate Finds(c: Code, out: seq<int>, log: seq<Event>, s: nat, k: nat)
    requires RefAt(c.steps, s, k)
  {
    exists i :: 0 <= i < |log| && log[i] == RefEvent(c.steps, s, k) && FindsFrom(c, out, log, s, k, i)
  }

  ghost predicate FindsFrom(c: Code, out: seq<int>, log: seq<Event>, s: nat, k: nat, i: nat)
    requires RefAt(c.steps, s, k) && i < |log| && log[i].Ref?
  {
    var j := Meant(log, i);
    && 0 <= j < |log| && log[j].Def? && log[j].lab == RefLab(c.steps[s][k])
    && LabelIs(c, log[j].pos, log[j].lab) && LeadsTo(c, out, s, k, Place(c, log[j].pos))
  }

  lemma ReferenceFinds(c: Code, out: seq<int>, log: seq<Event>, s: nat, k: nat)
    requires CodeOk(c) && Image(c, out, |c.steps|, 0) && |out| == c.size && c.t.target == Run(log).target
    requires DistinctRefs(log) && Listed(c.steps, log) && RefAt(c.steps, s, k)
    requires Pending(Run(log), RefLab(c.steps[s][k])) == []
    ensures Finds(c, out, log, s, k)
  {
    hide CodeOk;
    hide Image;
    hide LeadsTo;
    hide Run;
    assert RefEvent(c.steps, s, k) in log;
    var i :| 0 <= i < |log| && log[i] == RefEvent(c.steps, s, k);
    RefersTo(log, i);
    BranchLands(c, out, s, k);
    LabelInCode(c, c.t.target[StepPos(c.steps, s, k)]);
  }

  // A label is the place of a step in the code.
  lemma LabelInCode(c: Code, p: Pos)
    requires CodeOk(c) && p in c.what && c.what[p].LabelAt?
    ensures LabelIs(c, p, c.what[p].lab)
  {
    hide Walks;
    hide FixedTo;
    HomeStep(c.what, c.steps, p);
    assert HomeOk(p, c.what[p], c.steps);
    PlaceInCode(c, c.what[p].s, c.what[p].k);
  }

  lemma PlaceInCode(c: Code, s: nat, k: nat)
    requires CodeOk(c) && s < |c.steps| && k <= |c.steps[s]|
    ensures 0 <= AtOf(c.at, s, k) <= c.size
  {
    hide Built;
    hide FixedTo;
    hide StepLaid;
    var last := |c.steps| - 1;
    Slack(c.at, c.steps, c.buf, |c.steps|, 0, 0, 0, s, k);
    Slack(c.at, c.steps, c.buf, |c.steps|, 0, s, k, last, |c.steps[last]|);
  }

  // A global has the address of its last label in the code; without one it keeps the address it had.
  lemma GlobalAddress(c: Code, idx: nat)
    requires 10 <= idx < |c.globals|
    ensures var end := |c.steps|;
      if Labelled(c, end, 0, idx) then AddressOf(c, idx, GlobalsAt(c, end, 0)[idx])
      else GlobalsAt(c, end, 0)[idx] == c.globals[idx]
  {
    var end := |c.steps|;
    if Labelled(c, end, 0, idx) {
      var s, j := LastLabel(c, end, 0, idx);
      GlobalDefined(c, end, 0, s, j, idx);
    } else {
      GlobalKept(c, end, 0, idx);
    }
  }

  // The global has a label before step k of section `sec`.
  ghost predicate Labelled(c: Code, sec: nat, k: nat, idx: nat) {
    exists s: nat, j: nat ::
      s < |c.steps| && j < |c.steps[s]| && Defines(c.steps[s][j], idx) && Before(s, j, sec, k)
  }

  lemma {:induction false} LastLabel(c: Code, sec: nat, k: nat, idx: nat) returns (s: nat, j: nat)
    requires sec <= |c.steps| && (if sec < |c.steps| then k <= |c.steps[sec]| else k == 0) && Labelled(c, sec, k, idx)
    ensures LastDefines(c, sec, k, idx, s, j)
    decreases sec, k
  {
    if k > 0 && Defines(c.steps[sec][k - 1], idx) {
      s, j := sec, k - 1;
    } else if k > 0 {
      s, j := LastLabel(c, sec, k - 1, idx);
    } else {
      s, j := LastLabel(c, sec - 1, |c.steps[sec - 1]|, idx);
    }
  }

  // ------------------------------------------------------------------------ build_code

  // The first error, or the code, the offsets of the PC labels, and the addresses of the globals.
  datatype Outcome =
    | Failed(status: Status)
    | MissingLabel(n: nat)
    | MissingGlobal(n: nat)
    | Done(code: seq<int>, ofs: seq<int>, glob: seq<int>)

  // When the code can be built: all checks are passed, no reference is left waiting, and all PC labels
  // and all globals have a definition.
  ghost predicate Builds(acts: seq<int>, sections: nat, nglob: nat, npc: nat, calls: seq<Call>) {
    var t := Run(Stages(acts, sections, calls).log);
    && AllPass(acts, calls, Limits(sections, 10 + nglob, npc))
    && (forall l :: Pending(t, l) == [])
    && (forall n: nat :: n < npc ==> PC(n) in t.defs)
    && (forall n: nat :: 10 <= n < 10 + nglob ==> LG(n) in t.defs)
  }

  // What the code is then: the image of the steps, in which every number of the action list has put down its
  // bytes, and every reference leads to the definition it means.
  ghost predicate WellBuilt(c: Code, stage: Stage, code: seq<int>) {
    && c.steps == stage.steps && c.t.target == Run(stage.log).target
    && CodeOk(c) && |code| == c.size && Image(c, code, |c.steps|, 0)
    && (forall s: nat, k: nat :: RefAt(c.steps, s, k) ==> Finds(c, code, stage.log, s, k))
    && forall s: nat, k: nat :: s < |c.steps| && k < |c.steps[s]| ==> PutsDown(c, code, s, k)
  }

  // The offsets of the PC labels are the places of their last definitions.
  ghost predicate OffsetsOk(c: Code, log: seq<Event>, ofs: seq<int>, npc: nat) {
    && |ofs| == npc
    && forall n: nat :: n < npc ==>
      LastDef(log, |log|, PC(n)) >= 0 && OffsetOf(c, log[LastDef(log, |log|, PC(n))].pos, n, ofs[n])
  }

  // The last definition of PC label n is at p; that is offset o of the code.
  ghost predicate OffsetOf(c: Code, p: Pos, n: nat, o: int) {
    LabelIs(c, p, PC(n)) && o == Place(c, p)
  }

  ghost predicate AddressesOk(c: Code, glob: seq<int>, nglob: nat) {
    && |glob| == 10 + nglob
    && forall n: nat :: 10 <= n < |glob| ==> AddressOf(c, n, glob[n])
  }

  // The address is that of the last label of the global in the code.
  ghost predicate AddressOf(c: Code, n: nat, address: int) {
    exists s: nat, j: nat :: LastDefines(c, |c.steps|, 0, n, s, j) && address == c.base + AtOf(c.at, s, j)
  }

  // build_code: the calls of the backend, dasm_checkstep, dasm_link, dasm_encode; then the offsets of all
  // opcodes, and the addresses of all globals. `base` is where the memory for the code is.
  method BuildCode(acts: seq<int>, sections: nat, nglob: nat, npc: nat, calls: seq<Call>, base: int)
      returns (r: Outcome, ghost c: Code)
    requires sections > 0 && base > 0
    requires forall i :: 0 <= i < |calls| ==> WellFormed(acts, Stages(acts, sections, calls[..i]), calls[i])
    ensures r.Done? <==> Builds(acts, sections, nglob, npc, calls)
    ensures r.Done? ==> c.acts == acts && c.base == base && WellBuilt(c, Stages(acts, sections, calls), r.code)
    ensures r.Done? ==> OffsetsOk(c, Stages(acts, sections, calls).log, r.ofs, npc) && AddressesOk(c, r.glob, nglob)
  {
    hide CodeOk, Image, AllPass, Run, WellFormed, Stages, GlobalsAt, WellBuilt, OffsetsOk, AddressesOk;
    hide OffsetOf, Assembler.Ready, Assembler.Valid, DefsPlaced, Labels, DefsOk, PendingListed, Pending;
    ghost var stage := Stages(acts, sections, calls);
    var a, st := PutAndLink(acts, sections, nglob, npc, calls);
    c := a.TheCode(base, a.globals);
    ForgetKeeps(stage.log);
    if !st.Ok? {
      return Failed(st), c;
    }
    LinkFacts(a, base, a.globals);
    var status, code := a.Encode(base);
    var ofs := PcOffsets(a, c);
    if |ofs| < npc {
      return MissingLabel(|ofs|), c;
    }
    var n := MissingAddress(a, c, nglob);
    if n < 10 + nglob {
      return MissingGlobal(n), c;
    }
    NothingWaits(a.lg, a.pc, a.what, stage.log);
    StagesListed(acts, sections, calls);
    AllFind(c, stage, code);
    LastLabels(c, stage.log, ofs, npc);
    r := Done(code, ofs, a.globals);
  }

  // Up to dasm_link, which tells all errors so far.
  method PutAndLink(acts: seq<int>, sections: nat, nglob: nat, npc: nat, calls: seq<Call>)
      returns (a: Assembler, st: Status)
    requires sections > 0
    requires forall i :: 0 <= i < |calls| ==> WellFormed(acts, Stages(acts, sections, calls[..i]), calls[i])
    ensures fresh(a) && a.acts == acts && a.maxsection == sections && a.globals == seq(10 + nglob, _ => 0)
    ensures var log := Stages(acts, sections, calls).log;
      && (st.Ok? <==>
            && AllPass(acts, calls, Limits(sections, 10 + nglob, npc)) && NoLocalWaits(log)
            && forall n: nat :: n < npc ==> Pending(Run(log), PC(n)) == [])
      && (st.Ok? ==>
            && a.Ready() && |a.lg| == 10 + nglob && |a.pc| == npc
            && a.steps == Stages(acts, sections, calls).steps && a.log == log + [Forget]
            && Labels(a.what, log) && DefsPlaced(a.what, Run(a.log)))
  {
    hide AllPass, Run, WellFormed, Stages, Assembler.Ready, Assembler.Valid, DefsPlaced, Labels, Pending;
    a := new Assembler(acts, sections, seq(10 + nglob, _ => 0), npc);
    NoCalls(acts, sections, calls);
    RunCalls(a, calls);
    if a.status.Ok? {
      PutFacts(a);
      ForgetKeeps(a.log);
      PlacedStill(a.what, a.log);
    }
    a.CheckStep(-1);
    st := a.Link();
  }

  lemma NoCalls(acts: seq<int>, sections: nat, calls: seq<Call>)
    ensures Stages(acts, sections, []) == Stage(seq(sections, _ => []), 0, [])
  {
  }

  // Forgetting local labels changes no reference, and no other label.
  lemma ForgetKeeps(log: seq<Event>)
    ensures var t, t' := Run(log), Run(log + [Forget]);
      && t'.target == t.target && (forall l :: Pending(t', l) == Pending(t, l))
      && (forall l :: !Local(l) ==> (l in t'.defs <==> l in t.defs) && (l in t.defs ==> t'.defs[l] == t.defs[l]))
  {
    RunMore(log, Forget);
  }

  ghost predicate DefsPlaced(what: Memory, t: Table) {
    forall l :: l in t.defs ==> IsLabel(what, t.defs[l], l)
  }

  lemma PutFacts(a: Assembler)
    requires a.Valid() && a.status.Ok?
    ensures Labels(a.what, a.log) && DefsPlaced(a.what, Run(a.log)) && |a.steps| == a.maxsection
  {
  }

  lemma LinkFacts(a: Assembler, base: int, gl: seq<int>)
    requires a.Ready()
    ensures CodeOk(a.TheCode(base, gl)) && PendingListed(a.lg, a.pc, Run(a.log)) && DefsOk(a.what, Run(a.log))
    ensures |a.steps| == a.maxsection
  {
  }

  // A global has a label in the code exactly if it is defined.
  lemma GlobalLabelled(c: Code, idx: nat)
    requires CodeOk(c) && DefsOk(c.what, c.t) && DefsPlaced(c.what, c.t) && idx >= 10
    ensures Labelled(c, |c.steps|, 0, idx) <==> LG(idx) in c.t.defs
  {
    hide Walks;
    hide Fixed;
    if LG(idx) in c.t.defs {
      var p := c.t.defs[LG(idx)];
      HomeStep(c.what, c.steps, p);
      assert HomeOk(p, c.what[p], c.steps);
      assert Defines(c.steps[c.what[p].s][c.what[p].k], idx) && Before(c.what[p].s, c.what[p].k, |c.steps|, 0);
    }
    if Labelled(c, |c.steps|, 0, idx) {
      var s: nat, j: nat :| s < |c.steps| && j < |c.steps[s]| && Defines(c.steps[s][j], idx);
      StepWords(c.what, c.steps, s, j);
    }
  }

  lemma AddressPositive(c: Code, n: nat, address: int)
    requires CodeOk(c) && c.base > 0 && AddressOf(c, n, address)
    ensures address > 0
  {
    hide CodeOk;
    var s: nat, j: nat :| LastDefines(c, |c.steps|, 0, n, s, j) && address == c.base + AtOf(c.at, s, j);
    PlaceInCode(c, s, j);
  }

  // References can wait only for what is not defined.
  lemma NothingWaits(lg: seq<int>, pc: seq<int>, what: Memory, log: seq<Event>)
    requires Labels(what, log) && PendingListed(lg, pc, Run(log + [Forget])) && NoLocalWaits(log)
    requires forall n: nat :: n < |pc| ==> PC(n) in Run(log).defs
    requires forall n: nat :: 10 <= n < |lg| ==> LG(n) in Run(log).defs
    ensures forall l :: Pending(Run(log), l) == []
  {
    hide Run;
    NoneWaitsForZero(log);
    ForgetKeeps(log);
    forall l ensures Pending(Run(log), l) == [] {
      assert Pending(Run(log), l) == [] || InTable(lg, pc, l);
    }
  }

  lemma AllFind(c: Code, stage: Stage, code: seq<int>)
    requires CodeOk(c) && Image(c, code, |c.steps|, 0) && |code| == c.size && Labels(c.what, stage.log)
    requires c.steps == stage.steps && c.t.target == Run(stage.log).target && Listed(stage.steps, stage.log)
    requires forall l :: Pending(Run(stage.log), l) == []
    ensures WellBuilt(c, stage, code)
  {
    hide CodeOk;
    hide Image;
    hide Finds;
    hide Run;
    hide PutsDown;
    forall s: nat, k: nat | RefAt(c.steps, s, k) ensures Finds(c, code, stage.log, s, k) {
      ReferenceFinds(c, code, stage.log, s, k);
    }
    forall s: nat, k: nat | s < |c.steps| && k < |c.steps[s]| ensures PutsDown(c, code, s, k) {
      BytesByNumber(c, code, s, k);
    }
  }

  lemma LastLabels(c: Code, log: seq<Event>, ofs: seq<int>, npc: nat)
    requires |ofs| == npc
    requires forall n: nat :: n < npc ==> PC(n) in Run(log).defs && OffsetOf(c, Run(log).defs[PC(n)], n, ofs[n])
    ensures OffsetsOk(c, log, ofs, npc)
  {
    hide Run;
    hide OffsetOf;
    forall n: nat | n < npc
      ensures LastDef(log, |log|, PC(n)) >= 0 && OffsetOf(c, log[LastDef(log, |log|, PC(n))].pos, n, ofs[n])
    {
      KnownExactly(log, PC(n));
    }
  }

  lemma PlacedStill(what: Memory, log: seq<Event>)
    requires DefsPlaced(what, Run(log))
    ensures DefsPlaced(what, Run(log + [Forget]))
  {
    RunMore(log, Forget);
  }

  // The offsets of the PC labels, up to the first one that is not defined.
  method PcOffsets(a: Assembler, ghost c: Code) returns (ofs: seq<int>)
    requires a.Ready() && c == a.TheCode(c.base, c.globals) && CodeOk(c)
    requires DefsPlaced(c.what, c.t)
    ensures |ofs| <= |a.pc| && (|ofs| < |a.pc| ==> PC(|ofs|) !in c.t.defs)
    ensures forall n: nat :: n < |ofs| ==> PC(n) in c.t.defs && OffsetOf(c, c.t.defs[PC(n)], n, ofs[n])
  {
    hide CodeOk;
    hide Assembler.Ready;
    hide Run;
    hide AtOf;
    ofs := [];
    while |ofs| < |a.pc|
      invariant |ofs| <= |a.pc|
      invariant forall n: nat :: n < |ofs| ==> PC(n) in c.t.defs && OffsetOf(c, c.t.defs[PC(n)], n, ofs[n])
    {
      var o := a.GetPcLabel(|ofs|);
      if PC(|ofs|) in c.t.defs {
        LabelInCode(c, c.t.defs[PC(|ofs|)]);
      }
      if o < 0 {
        return;
      }
      ofs := ofs + [o];
    }
  }

  // The first global without an address.
  method MissingAddress(a: Assembler, ghost c: Code, nglob: nat) returns (n: nat)
    requires c.base > 0 && |c.globals| == 10 + nglob && (forall i :: 0 <= i < |c.globals| ==> c.globals[i] == 0)
    requires CodeOk(c) && DefsOk(c.what, c.t) && DefsPlaced(c.what, c.t) && a.globals == GlobalsAt(c, |c.steps|, 0)
    ensures n <= 10 + nglob && (n < 10 + nglob ==> 10 <= n && LG(n) !in c.t.defs)
    ensures forall i: nat :: 10 <= i < n ==> LG(i) in c.t.defs
    ensures n == 10 + nglob ==> AddressesOk(c, a.globals, nglob)
  {
    hide CodeOk;
    hide GlobalsAt;
    hide AddressOf;
    hide Labelled;
    hide DefsOk;
    hide DefsPlaced;
    n := 10;
    while n < 10 + nglob
      invariant 10 <= n <= 10 + nglob
      invariant forall i: nat :: 10 <= i < n ==> LG(i) in c.t.defs
      invariant forall i: nat :: 10 <= i < n ==> AddressOf(c, i, a.globals[i])
    {
      GlobalAddress(c, n);
      GlobalLabelled(c, n);
      if LG(n) in c.t.defs {
        AddressPositive(c, n, a.globals[n]);
      }
      if a.globals[n] == 0 {
        return;
      }
      n := n + 1;
    }
  }

  // build_backend: one dasm_put after the other. After an error there is nothing more to say.
  method RunCalls(a: Assembler, calls: seq<Call>)
    requires a.Valid() && a.status.Ok? && a.Now() == Stages(a.acts, a.maxsection, [])
    requires forall i :: 0 <= i < |calls| ==> WellFormed(a.acts, Stages(a.acts, a.maxsection, calls[..i]), calls[i])
    modifies a`buf, a`lg, a`pc, a`what, a`steps, a`log, a`status, a`section, a`pos, a`ofs
    ensures a.Valid() && a.Bounds() == old(a.Bounds())
    ensures a.status.Ok? <==> AllPass(a.acts, calls, a.Bounds())
    ensures a.status.Ok? ==> a.Now() == Stages(a.acts, a.maxsection, calls)
  {
    hide Stages;
    hide After;
    hide CallPasses;
    hide WellFormed;
    var i := 0;
    while i < |calls| && a.status.Ok?
      invariant 0 <= i <= |calls| && a.Valid() && a.Bounds() == old(a.Bounds())
      invariant a.status.Ok? ==> a.Now() == Stages(a.acts, a.maxsection, calls[..i])
      invariant a.status.Ok? <==>
        forall j :: 0 <= j < i ==> CallPasses(a.acts, Stages(a.acts, a.maxsection, calls[..j]), calls[j], a.Bounds())
    {
      StagesMore(a.acts, a.maxsection, calls, i);
      assert calls[i] == Call(calls[i].start, calls[i].args);
      a.Put(calls[i].start, calls[i].args);
      i := i + 1;
    }
    assert calls[..|calls|] == calls;
  }
}
