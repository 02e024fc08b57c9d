/** Action lists of the x86 encoder, and how much room their actions take. */
module DasmActions {

  // Immediate operands: signed byte, byte, word, double word, and the forms that take one byte if they can.
  datatype Imm = ImmS | ImmB | ImmW | ImmD | ImmWB | ImmDB

  // Byte: a byte of code, escaped or not. Other: an action that is not modelled, or no action at all.
  datatype Action =
    | Byte(b: int)
    | Value(imm: Imm)
    | Space(fill: int)
    | RelLG(n: nat) | RelPC
    | ImmLG(n: nat) | ImmPC
    | LabelLG(n: nat) | LabelPC
    | Align(mask: nat)
    | Section(n: nat)
    | Stop
    | Other

  const DASM_DISP := 233
  const DASM_STOP := 255

  // The action at p, and the number of bytes it takes in the action list.
  function Decode(acts: seq<int>, p: nat): (r: (Action, nat))
    ensures !r.0.Other? ==> r.1 > 0 && p + r.1 <= |acts|
  {
    if p >= |acts| || !(0 <= acts[p] <= DASM_STOP) then (Other, 1)
    else
      var a := acts[p];
      if a < DASM_DISP then (Byte(a), 1)
      else if a == 234 then (Value(ImmS), 1)
      else if a == 235 then (Value(ImmB), 1)
      else if a == 236 then (Value(ImmW), 1)
      else if a == 237 then (Value(ImmD), 1)
      else if a == 238 then (Value(ImmWB), 1)
      else if a == 239 then (Value(ImmDB), 1)
      else if a == 245 then (RelPC, 1)
      else if a == 247 then (ImmPC, 1)
      else if a == 249 then (LabelPC, 1)
      else if a == DASM_STOP then (Stop, 1)
      else if p + 1 >= |acts| || !(0 <= acts[p + 1] <= 255) then (Other, 1)
      else
        var x := acts[p + 1];
        if a == 241 then (Space(x), 2)
        else if a == 244 then (RelLG(x), 2)
        else if a == 246 then (ImmLG(x), 2)
        else if a == 248 then (LabelLG(x), 2)
        else if a == 250 then (if MaskOk(x) then Align(x) else Other, 2)
        else if a == 252 then (Byte(x), 2)
        else if a == 254 then (Section(x), 2)
        else (Other, 1)
  }

  // An alignment is given as 2^n - 1.
  predicate MaskOk(x: int) {
    x == 0 || x == 1 || x == 3 || x == 7 || x == 15 || x == 31 || x == 63 || x == 127 || x == 255
  }

  // The byte before an action: the opcode of a branch.
  function Opcode(acts: seq<int>, q: nat): int {
    if 0 < q <= |acts| then acts[q - 1] else 0
  }

  // How many bytes a branch with this opcode can shrink by.
  function Shrink(op: int): (s: nat)
    ensures s == 0 || s == 3 || s == 4
  {
    if op == 0xe9 then 3 else if 0x80 <= op < 0x90 then 4 else 0
  }

  predicate ShortImm(n: int) {
    -128 <= n < 128
  }

  // ------------------------------------------------------------------------ steps

  // What a section holds, in order: the start of each dasm_put with its action list offset, and the
  // actions with their argument: an immediate, or the number of a PC label.
  datatype Step = Start(p: nat) | Act(q: nat, act: Action, n: int)

  predicate TakesArg(a: Action) {
    a.Value? || a.Space? || a.RelPC? || a.ImmPC? || a.LabelPC?
  }

  predicate Ends(a: Action) {
    a.Stop? || a.Section?
  }

  // The steps of one dasm_put, from p on.
  function Program(acts: seq<int>, p: nat, args: seq<int>): seq<Step>
    decreases |acts| - p
  {
    var (a, len) := Decode(acts, p);
    if a.Other? || (TakesArg(a) && args == []) then []
    else
      var s := Act(p, a, if TakesArg(a) then args[0] else 0);
      if Ends(a) then [s] else [s] + Program(acts, p + len, if TakesArg(a) then args[1..] else args)
  }

  // There is an argument for each action that takes one, none leaves a negative space, and the list ends.
  predicate Complete(acts: seq<int>, p: nat, args: seq<int>)
    decreases |acts| - p
  {
    var (a, len) := Decode(acts, p);
    && !a.Other? && (TakesArg(a) ==> args != [] && (a.Space? ==> args[0] >= 0))
    && (Ends(a) || Complete(acts, p + len, if TakesArg(a) then args[1..] else args))
  }

  predicate IsRel(s: Step) {
    s.Act? && (s.act.RelLG? || s.act.RelPC?)
  }

  predicate IsImmRef(s: Step) {
    s.Act? && (s.act.ImmLG? || s.act.ImmPC?)
  }

  predicate IsRef(s: Step) {
    IsRel(s) || IsImmRef(s)
  }

  predicate IsDef(s: Step) {
    s.Act? && (s.act.LabelLG? || s.act.LabelPC?)
  }

  predicate IsAlign(s: Step) {
    s.Act? && s.act.Align?
  }

  predicate IsByte(s: Step) {
    s.Act? && s.act.Byte?
  }

  // Buffer positions taken.
  function Slots(s: Step): nat {
    if s.Start? then 1
    else if IsRel(s) then 2
    else if s.act.Byte? || Ends(s.act) || s.act.Other? then 0
    else 1
  }

  function ImmSize(i: Imm, n: int): nat {
    match i
    case ImmS => 1
    case ImmB => 1
    case ImmW => 2
    case ImmD => 4
    case ImmWB => if ShortImm(n) then 1 else 2
    case ImmDB => if ShortImm(n) then 1 else 4
  }

  // The estimate of pass 1: bytes of code, at most.
  function MaxSize(s: Step): nat {
    if s.Start? then 0
    else match s.act
      case Byte(_) => 1
      case Value(i) => ImmSize(i, s.n)
      case Space(_) => if s.n < 0 then 0 else s.n
      case RelLG(_) => 4
      case RelPC => 4
      case ImmLG(_) => 4
      case ImmPC => 4
      case Align(mask) => mask
      case _ => 0
  }

  function Est(steps: seq<Step>, k: nat): nat
    requires k <= |steps|
  {
    if k == 0 then 0 else Est(steps, k - 1) + MaxSize(steps[k - 1])
  }

  function Slot(steps: seq<Step>, k: nat): nat
    requires k <= |steps|
  {
    if k == 0 then 0 else Slot(steps, k - 1) + Slots(steps[k - 1])
  }

  lemma {:induction false} PrefixSums(steps: seq<Step>, more: seq<Step>, k: nat)
    requires k <= |steps|
    ensures Est(steps + more, k) == Est(steps, k) && Slot(steps + more, k) == Slot(steps, k)
  {
    if k > 0 {
      PrefixSums(steps, more, k - 1);
    }
  }

  lemma SumsGrow(steps: seq<Step>, s: Step)
    ensures Est(steps + [s], |steps| + 1) == Est(steps, |steps|) + MaxSize(s)
    ensures Slot(steps + [s], |steps| + 1) == Slot(steps, |steps|) + Slots(s)
  {
    PrefixSums(steps, [s], |steps|);
  }

  lemma {:induction false} SlotsAscend(steps: seq<Step>, j: nat, k: nat)
    requires j < k <= |steps|
    ensures Slot(steps, j) + Slots(steps[j]) <= Slot(steps, k)
  {
    if j < k - 1 {
      SlotsAscend(steps, j, k - 1);
    }
  }

  // ------------------------------------------------------------------------ well-formed lists

  // Steps follow each other in the action list, one dasm_put after the other.
  predicate Succeeds(acts: seq<int>, s: Step, t: Step) {
    if s.Start? then t.Act? && t.q == s.p
    else if Ends(s.act) then t.Start?
    else t.Act? && t.q == s.q + Decode(acts, s.q).1
  }

  predicate Decoded(acts: seq<int>, s: Step) {
    s.Act? ==> s.act == Decode(acts, s.q).0 && !s.act.Other?
  }

  ghost predicate Walk(acts: seq<int>, steps: seq<Step>) {
    && (forall k :: 0 <= k < |steps| ==> Decoded(acts, steps[k]))
    && (forall k {:trigger steps[k + 1]} :: 0 <= k < |steps| - 1 ==> Succeeds(acts, steps[k], steps[k + 1]))
    && (steps != [] ==> steps[0].Start?)
  }

  // The walk is not in the middle of a dasm_put.
  predicate Finished(steps: seq<Step>) {
    steps == [] || (steps[|steps| - 1].Act? && Ends(steps[|steps| - 1].act))
  }

  lemma WalkMore(acts: seq<int>, steps: seq<Step>, s: Step)
    requires Walk(acts, steps) && Decoded(acts, s)
    requires if steps == [] then s.Start? else Succeeds(acts, steps[|steps| - 1], s)
    ensures Walk(acts, steps + [s])
  {
  }

  // Code that is patched later is there: a branch that can shrink comes right behind its opcode, one
  // or two bytes of code, and an immediate that can be one byte behind two.
  predicate PatchOk(acts: seq<int>, steps: seq<Step>, k: nat)
    requires k < |steps|
  {
    && (IsRel(steps[k]) && Shrink(Opcode(acts, steps[k].q)) > 0 ==>
          k >= 1 && IsByte(steps[k - 1]) && steps[k - 1].act.b == Opcode(acts, steps[k].q))
    && (IsRel(steps[k]) && Shrink(Opcode(acts, steps[k].q)) == 4 ==> k >= 2 && IsByte(steps[k - 2]))
    && (PatchesImm(steps[k]) ==> k >= 2 && IsByte(steps[k - 1]) && IsByte(steps[k - 2]))
  }

  predicate PatchesImm(s: Step) {
    s.Act? && s.act.Value? && (s.act.imm.ImmWB? || s.act.imm.ImmDB?) && ShortImm(s.n)
  }

  predicate Patchable(acts: seq<int>, steps: seq<Step>) {
    forall k :: 0 <= k < |steps| ==> PatchOk(acts, steps, k)
  }

  lemma PatchableMore(acts: seq<int>, steps: seq<Step>, more: seq<Step>)
    requires Patchable(acts, steps) && Patchable(acts, more)
    ensures Patchable(acts, steps + more)
  {
    forall k | 0 <= k < |steps + more| ensures PatchOk(acts, steps + more, k) {
      if k < |steps| {
        assert PatchOk(acts, steps, k);
      } else {
        assert PatchOk(acts, more, k - |steps|);
      }
    }
  }
}
