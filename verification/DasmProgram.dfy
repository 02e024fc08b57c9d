/** What a sequence of dasm_put calls means: the steps of all sections, and which checks they pass. */
module DasmProgram {
  import opened DasmActions
  import opened DasmLabels
  import opened DasmMemory

  // The checks on immediate operands.
  predicate InRange(imm: Imm, n: int) {
    match imm
    case ImmS => ShortImm(n)
    case ImmB => 0 <= n < 0x100
    case ImmW => 0 <= n < 0x1_0000
    case ImmD => true
    case ImmWB => ShortImm(n) || 0 <= n < 0x1_0000
    case ImmDB => true
  }

  // The sizes of the tables that actions refer to: sections, numbered labels, PC labels.
  datatype Limits = Limits(sections: nat, lgs: nat, pcs: nat)

  // An action passes its checks if operands are in range, labels and sections exist, and a backward
  // reference to a local label finds it known.
  predicate Passes(x: Step, t: Table, n: Limits) {
    x.Act? ==>
      match x.act
      case Value(imm) => InRange(imm, x.n)
      case RelLG(m) => m <= 246 ==> m < n.lgs && (m < 10 ==> Known(t, LG(m)))
      case ImmLG(m) => m <= 246 ==> m < n.lgs && (m < 10 ==> Known(t, LG(m)))
      case RelPC => 0 <= x.n < n.pcs
      case ImmPC => 0 <= x.n < n.pcs
      case LabelPC => 0 <= x.n < n.pcs
      case LabelLG(m) => m < n.lgs
      case Section(m) => m < n.sections
      case _ => true
  }

  // Step j of a section does, in a call that started with step n0 when log0 had happened.
  ghost predicate PassesAt(steps: seq<Step>, base: Pos, n0: nat, j: nat, log0: seq<Event>, n: Limits)
    requires j < |steps|
  {
    Passes(steps[j], Run(log0 + Events(steps, base, n0, j)), n)
  }

  // The section that is active once x is put down.
  function Entered(x: Step, section: nat): nat {
    if x.Act? && x.act.Section? then x.act.n else section
  }

  // ------------------------------------------------------------------------ whole runs

  // One call of dasm_put.
  datatype Call = Call(start: nat, args: seq<int>)

  // The sections, the active one, and what has happened to the labels.
  datatype Stage = Stage(steps: seq<seq<Step>>, section: nat, log: seq<Event>)

  function Added(acts: seq<int>, c: Call): (more: seq<Step>)
    ensures more != []
  {
    [Start(c.start)] + Program(acts, c.start, c.args)
  }

  function After(acts: seq<int>, s: Stage, c: Call): Stage {
    if s.section >= |s.steps| then s
    else
      var before := s.steps[s.section];
      var now := before + Added(acts, c);
      Stage(s.steps[s.section := now], Entered(now[|now| - 1], s.section),
        s.log + Events(now, SecBase(s.section), |before|, |now|))
  }

  function Stages(acts: seq<int>, sections: nat, calls: seq<Call>): Stage {
    if calls == [] then Stage(seq(sections, _ => []), 0, [])
    else After(acts, Stages(acts, sections, calls[..|calls| - 1]), calls[|calls| - 1])
  }

  lemma StagesMore(acts: seq<int>, sections: nat, calls: seq<Call>, i: nat)
    requires i < |calls|
    ensures Stages(acts, sections, calls[..i + 1]) == After(acts, Stages(acts, sections, calls[..i]), calls[i])
  {
    assert calls[..i + 1][..i] == calls[..i];
  }

  // What a call asks of the caller: a list that ends, arguments for it, opcodes to patch, and room.
  ghost predicate WellFormed(acts: seq<int>, s: Stage, c: Call) {
    && Complete(acts, c.start, c.args) && Patchable(acts, Added(acts, c))
    && (s.section < |s.steps| ==>
      var now := s.steps[s.section] + Added(acts, c);
      Slot(now, |now|) < SECTION_SPACE - 2)
  }

  // All actions of a call pass their checks.
  ghost predicate CallPasses(acts: seq<int>, s: Stage, c: Call, n: Limits) {
    && s.section < |s.steps|
    && var now := s.steps[s.section] + Added(acts, c);
       forall j :: |s.steps[s.section]| <= j < |now| ==>
         PassesAt(now, SecBase(s.section), |s.steps[s.section]|, j, s.log, n)
  }

  ghost predicate AllPass(acts: seq<int>, calls: seq<Call>, n: Limits) {
    forall i :: 0 <= i < |calls| ==> CallPasses(acts, Stages(acts, n.sections, calls[..i]), calls[i], n)
  }
}
