/**
 Linking without dasm_checkstep: dasm_link reports a reference that waits for a PC label, but not one that
 waits for a local label.
 */
module DasmStray {
  import opened DasmActions
  import opened DasmAssembler
  import opened DasmBuild
  import opened DasmImage
  import opened DasmLabels
  import opened DasmLayout
  import opened DasmLink
  import opened DasmMemory
  import opened DasmProgram

  // Every reference to a label that belongs to this code has got its position.
  ghost predicate Resolved(c: Code) {
    forall s: nat, k: nat :: RefAt(c.steps, s, k) && Local(RefLab(c.steps[s][k])) ==>
      StepPos(c.steps, s, k) in c.t.target
  }

  // That is the case exactly if no reference waits for a local label, which dasm_checkstep would report.
  lemma ResolvedExactly(c: Code, log: seq<Event>)
    requires DistinctRefs(log) && Listed(c.steps, log) && c.t.target == Run(log).target
    ensures Resolved(c) <==> NoLocalWaits(log)
  {
    hide Run;
    var t := Run(log);
    forall s: nat, k: nat | RefAt(c.steps, s, k) && Local(RefLab(c.steps[s][k]))
      ensures StepPos(c.steps, s, k) in t.target || Pending(t, RefLab(c.steps[s][k])) != []
    {
      assert RefEvent(c.steps, s, k) in log;
      var i :| 0 <= i < |log| && log[i] == RefEvent(c.steps, s, k);
      RefersTo(log, i);
    }
    forall l | Local(l) && Pending(t, l) != [] ensures !Resolved(c) {
      var p := Pending(t, l)[0];
      Settled(log, p, l);
      var i :| 0 <= i < |log| && log[i].Ref? && log[i].pos == p && log[i].lab == l;
      assert log[i] in log;
      var s: nat, k: nat :| RefAt(c.steps, s, k) && log[i] == RefEvent(c.steps, s, k);
      assert StepPos(c.steps, s, k) !in t.target;
    }
  }

  // Where a stray leads: to an offset that is a buffer position of another stray, or the start of the
  // first dasm_put in the action list.
  lemma StrayLeads(c: Code, out: seq<int>, s: nat, k: nat)
    requires CodeOk(c) && Image(c, out, |c.steps|, 0) && |out| == c.size
    requires RefAt(c.steps, s, k) && Stray(c.what, c.t, StepPos(c.steps, s, k))
    ensures var p, e := StepPos(c.steps, s, k), AtOf(c.at, s, k + 1);
      && 0 <= e <= |out|
      && (IsRel(c.steps[s][k]) && CutAt(c, s, k) == 0 ==>
            4 <= e && FromLE(out[e - 4..e]) == (StrayValue(c.what, c.t, p) - e) % 0x1_0000_0000)
      && (IsRel(c.steps[s][k]) && CutAt(c, s, k) > 0 ==>
            1 <= e && out[e - 1] == (StrayValue(c.what, c.t, p) - e) % 256)
      && (IsImmRef(c.steps[s][k]) ==>
            4 <= e && FromLE(out[e - 4..e]) == (StrayValue(c.what, c.t, p) + c.base) % 0x1_0000_0000)
  {
    hide CodeOk;
    hide StrayValue;
    hide Stray;
    StepEnds(c, s, k);
    assert Emits(c, out, s, k, |c.steps[s]|);
    ReadBack(RefValue(c, s, k));
    NotTarget(c, StepPos(c.steps, s, k));
  }

  lemma NotTarget(c: Code, p: Pos)
    ensures Stray(c.what, c.t, p) ==> p !in c.t.target
  {
  }

  // ---------------------------------------------------------------------------- an example

  // A jump to the next label 1, and no such label.
  const Jump := [252, 0xe9, 244, 247, 255]

  function JumpSteps(): seq<Step> {
    [Start(0), Act(0, Byte(0xe9), 0), Act(2, RelLG(247), 0), Act(4, Stop, 0)]
  }

  function JumpLog(): seq<Event> {
    [Ref(1, LG(1), true)]
  }

  lemma JumpProgram()
    ensures Complete(Jump, 0, []) && [Start(0)] + Program(Jump, 0, []) == JumpSteps()
    ensures Patchable(Jump, JumpSteps())
  {
    assert Decode(Jump, 0) == (Byte(0xe9), 2);
    assert Decode(Jump, 2) == (RelLG(247), 2);
    assert Decode(Jump, 4) == (Stop, 1);
    assert Program(Jump, 4, []) == [Act(4, Stop, 0)];
    assert Program(Jump, 2, []) == [Act(2, RelLG(247), 0)] + Program(Jump, 4, []);
    assert Complete(Jump, 4, []) && Complete(Jump, 2, []);
    forall k | 0 <= k < |JumpSteps()| ensures PatchOk(Jump, JumpSteps(), k) {
    }
  }

  lemma JumpSlots()
    ensures var x := JumpSteps();
      Slot(x, 0) == 0 && Slot(x, 1) == 1 && Slot(x, 2) == 1 && Slot(x, 3) == 3 && Slot(x, 4) == 3
    ensures var x := JumpSteps();
      Est(x, 0) == 0 && Est(x, 1) == 0 && Est(x, 2) == 1 && Est(x, 3) == 5 && Est(x, 4) == 5
    ensures SecBase(0) == 0
  {
  }

  lemma JumpEvents()
    ensures Events(JumpSteps(), 0, 0, 4) == JumpLog()
  {
    JumpSlots();
    var x := JumpSteps();
    assert Events(x, 0, 0, 1) == [];
    assert Events(x, 0, 0, 2) == [];
    assert Events(x, 0, 0, 3) == JumpLog();
  }

  lemma JumpPasses(n: Limits)
    requires n.sections == 1 && n.lgs == 10
    ensures CallPasses(Jump, Stage([[]], 0, []), Call(0, []), n)
  {
    JumpProgram();
    var now := JumpSteps();
    assert [] + Added(Jump, Call(0, [])) == now;
    forall j | 0 <= j < |now| ensures PassesAt(now, SecBase(0), 0, j, [], n) {
    }
  }

  // The jump is taken to lead to offset 0, and shrinks.
  lemma JumpCut(c: Code)
    requires CodeOk(c) && c.acts == Jump && c.steps == [JumpSteps()] && c.t == Run(JumpLog())
    ensures Stray(c.what, c.t, StepPos(c.steps, 0, 2)) && StrayValue(c.what, c.t, StepPos(c.steps, 0, 2)) == 0
    ensures AtOf(c.at, 0, 2) == 1 ==> CutAt(c, 0, 2) == 3
  {
    hide CodeOk;
    JumpSlots();
    JumpWords(c);
    RunMore([], Ref(1, LG(1), true));
    assert StepPos(c.steps, 0, 2) == 1 && StepPos(c.steps, 0, 0) == 0;
    assert Pending(c.t, LG(1)) == [1];
    CutIsDecision(c, 0, 2);
  }

  lemma JumpWords(c: Code)
    requires CodeOk(c) && c.steps == [JumpSteps()]
    ensures var p, q := StepPos(c.steps, 0, 0), StepPos(c.steps, 0, 2);
      p in c.what && c.what[p] == Const(0) && q in c.what && c.what[q] == LinkTo(LG(1))
  {
    hide Fixed;
    hide Walks;
    StepWords(c.what, c.steps, 0, 0);
    StepWords(c.what, c.steps, 0, 2);
  }

  // The code is a jump to itself.
  lemma JumpCode(c: Code, out: seq<int>)
    requires CodeOk(c) && c.acts == Jump && c.steps == [JumpSteps()] && c.t == Run(JumpLog())
    requires Image(c, out, 1, 0) && |out| == c.size
    ensures out == [0xeb, 0xfe]
  {
    hide CodeOk;
    hide Stray;
    hide StrayValue;
    EncodingStarts(c);
    StepEnds(c, 0, 0);
    StepEnds(c, 0, 1);
    JumpCut(c);
    StepEnds(c, 0, 2);
    StepEnds(c, 0, 3);
    SectionEnds(c, 0);
    EncodingEnds(c);
    NotTarget(c, StepPos(c.steps, 0, 2));
    assert Emits(c, out, 0, 1, |c.steps[0]|) && Emits(c, out, 0, 2, |c.steps[0]|);
  }

  // Nothing fails.
  method JumpToNowhere(base: int) returns (st: Status, out: seq<int>)
    ensures st.Ok? && out == [0xeb, 0xfe]
  {
    hide Image;
    hide CodeOk;
    hide Program;
    hide Complete;
    hide Patchable;
    hide CallPasses;
    hide Events;
    hide Run;
    hide Assembler.Valid;
    hide Assembler.Ready;
    var a := new Assembler(Jump, 1, seq(10, _ => 0), 0);
    assert a.Now() == Stage([[]], 0, []);
    JumpProgram();
    JumpSlots();
    JumpEvents();
    JumpPasses(a.Bounds());
    assert [] + Added(Jump, Call(0, [])) == JumpSteps();
    a.Put(0, []);
    assert a.steps == [JumpSteps()] && a.log == JumpLog();
    PutFacts(a);
    st := a.Link();
    ghost var c := a.TheCode(base, a.globals);
    LinkFacts(a, base, a.globals);
    st, out := a.Encode(base);
    JumpCode(c, out);
  }
}
