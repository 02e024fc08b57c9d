/** The x86 encoding engine of DynASM: dasm_put, dasm_checkstep, dasm_link, dasm_encode. */
module DasmAssembler {
  import opened DasmActions
  import opened DasmImage
  import opened DasmLabels
  import opened DasmLayout
  import opened DasmLink
  import opened DasmMemory
  import opened DasmProgram

  // Status codes, with the action list offset or the number of the label.
  datatype Status =
    | Ok
    | RangeI(at: nat)
    | RangeSec(at: nat)
    | RangeLG(at: nat)
    | RangePC(at: nat)
    | UndefL(n: nat)
    | UndefPC(n: nat)
    | MatchSec(n: nat)
    | Phase

  class Assembler {
    const acts: seq<int>
    const maxsection: nat
    var lg: seq<int>          // local and global labels: chains of references, or negated positions
    var pc: seq<int>          // PC labels
    var buf: map<Pos, int>    // all section buffers
    var pos: seq<Pos>         // of each section, the position behind its end
    var ofs: seq<int>         // of each section, its size, estimated
    var section: nat
    var codesize: int
    var globals: seq<int>     // addresses of globals, under the numbers of their labels
    var status: Status
    ghost var steps: seq<seq<Step>>
    ghost var what: Memory
    ghost var log: seq<Event>
    ghost var at: seq<seq<int>>     // where each step of each section starts

    // dasm_init, dasm_setupglobal, dasm_growpc and dasm_setup.
    constructor (actionlist: seq<int>, maxsec: nat, gl: seq<int>, maxpc: nat)
      requires maxsec > 0 && |gl| >= 10
      ensures Valid() && status.Ok? && log == [] && steps == seq(maxsec, _ => []) && acts == actionlist &&
        maxsection == maxsec
      ensures |lg| == |globals| && globals == gl && |pc| == maxpc && section == 0
    {
      acts, maxsection := actionlist, maxsec;
      lg, pc, globals := seq(|gl|, _ => 0), seq(maxpc, _ => 0), gl;
      buf := map[];
      pos, ofs := seq(maxsec, s requires 0 <= s < maxsec => SecBase(s)), seq(maxsec, _ => 0);
      section, codesize, status := 0, 0, Ok;
      steps, what, log, at := seq(maxsec, _ => []), map[], [], [];
    }

    // ------------------------------------------------------------------- the label chains

    ghost predicate Chained()
      reads this
    {
      Linked(lg, pc, buf, what, log)
    }

    method SetEntry(l: Lab, v: int)
      requires InTable(lg, pc, l)
      modifies this`lg, this`pc
      ensures EntrySet(old(lg), old(pc), lg, pc, l, v)
    {
      match l
      case LG(n) => lg := lg[n := v];
      case PC(n) => pc := pc[n := v];
    }

    // A word that is no reference and no label.
    method SetWord(p: Pos, v: int, ghost c: Content)
      requires Chained() && p !in what && (c.Const? || (c.EndAt? && p > 0)) && v == WordFor(c)
      modifies this`buf, this`what
      ensures Chained() && buf == old(buf)[p := v] && what == old(what)[p := c]
    {
      hide Linked;
      LinkedWord(lg, pc, buf, what, log, p, c);
      buf := buf[p := v];
      what := what[p := c];
    }

    // putrel and linkrel: a reference at p.
    method LinkRef(l: Lab, fwd: bool, p: Pos)
      requires Chained() && InTable(lg, pc, l) && p > 0 && p !in what &&
        (if fwd then Local(l) else MustBeKnown(l) ==> Entry(lg, pc, l) < 0)
      modifies this`buf, this`lg, this`pc, this`what, this`log
      ensures Chained() && log == old(log) + [Ref(p, l, fwd)] && what == old(what)[p := LinkTo(l)]
      ensures |lg| == |old(lg)| && |pc| == |old(pc)|
    {
      hide Linked;
      var n := Entry(lg, pc, l);
      if fwd && n < 0 {
        n := 0;  // start a new chain if the label exists
      }
      if n < 0 {
        LinkedKnown(lg, pc, buf, what, log, p, l);
        buf := buf[p := -n];
      } else {
        SetEntry(l, p);
        LinkedWaits(old(lg), old(pc), buf, what, log, p, l, fwd, n, lg, pc);
        buf := buf[p := n];
      }
      what := what[p := LinkTo(l)];
      log := log + [Ref(p, l, fwd)];
    }

    // putlabel: the chain is collapsed, and all its references get the position of the label.
    method DefineLabel(l: Lab, p: Pos, est: nat, ghost s: nat, ghost k: nat)
      requires Chained() && InTable(lg, pc, l) && p > 0 && p !in what
      modifies this`buf, this`lg, this`pc, this`what, this`log
      ensures Chained() && log == old(log) + [Def(p, l)] && what == old(what)[p := LabelAt(s, k, est, l)]
      ensures |lg| == |old(lg)| && |pc| == |old(pc)|
    {
      ghost var ps, c, buf0 := Pending(Run(log), l), LabelAt(s, k, est, l), buf;
      WaitOnce(log, l);
      EntrySign(Entry(lg, pc, l), l, buf, what, Run(log));
      CollapseChain(Entry(lg, pc, l), p, ps);
      SetEntry(l, -p);
      buf := buf[p := est];
      LinkedDef(old(lg), old(pc), buf0, what, log, p, l, c, lg, pc, buf);
      what := what[p := c];
      log := log + [Def(p, l)];
    }

    // Follow a chain, and replace each link.
    method CollapseChain(head: int, v: int, ghost ps: seq<Pos>)
      requires if ps == [] then head <= 0 else Chain(buf, head, ps) && NoDuplicates(ps)
      modifies this`buf
      ensures buf.Keys == old(buf).Keys
      ensures forall q :: q in old(buf) ==> buf[q] == if q in ps then v else old(buf)[q]
    {
      var n := head;
      ghost var j := 0;
      while n > 0
        invariant 0 <= j <= |ps| && (n > 0 ==> j < |ps| && n == ps[j]) && (n <= 0 ==> j == |ps|)
        invariant buf.Keys == old(buf).Keys
        invariant forall q :: q in old(buf) ==> buf[q] == if q in ps[..j] then v else old(buf)[q]
        decreases |ps| - j
      {
        assert ps[..j + 1] == ps[..j] + [n];
        assert n !in ps[..j];
        var next := buf[n];
        buf := buf[n := v];
        n := next;
        j := j + 1;
      }
      assert ps[..j] == ps;
    }

    // --------------------------------------------------------------------------- pass 1

    function Bounds(): Limits
      reads this`lg, this`pc
    {
      Limits(maxsection, |lg|, |pc|)
    }

    // Between calls: all that was put down is in order.
    ghost predicate Valid()
      reads this
    {
      status.Ok? ==>
        && section < maxsection && |steps| == maxsection && 10 <= |lg|
        && Chained() && Shape(what, steps) && Apart(steps) && Closed(pos, ofs, steps, -1) && Walks(acts, steps, -1)
    }

    // Within a call: the end of section cur is at p, its size o.
    ghost predicate Open(cur: nat, p: Pos, o: nat)
      reads this
    {
      && section < maxsection && |steps| == maxsection && 10 <= |lg| && cur < maxsection && status.Ok?
      && Chained() && Shape(what, steps) && Apart(steps) && Closed(pos, ofs, steps, cur) && Walks(acts, steps, cur)
      && p == StepPos(steps, cur, |steps[cur]|) && o == Est(steps[cur], |steps[cur]|)
    }

    // x may come next in section cur.
    ghost predicate Next(cur: nat, x: Step)
      requires cur < |steps|
      reads this
    {
      && Decoded(acts, x) && Apart(Pushed(steps, cur, x))
      && if steps[cur] == [] then x.Start? else Succeeds(acts, steps[cur][|steps[cur]| - 1], x)
    }

    // What is left to show once a step's words are written.
    lemma StepDone(steps0: seq<seq<Step>>, what0: Memory, cur: nat, x: Step)
      requires cur < |steps0| && Shape(what0, steps0) && Apart(steps0) && Walks(acts, steps0, cur) &&
        Closed(pos, ofs, steps0, cur)
      requires Decoded(acts, x) && Apart(Pushed(steps0, cur, x)) && what == Grown(what0, steps0, cur, x)
      requires if steps0[cur] == [] then x.Start? else Succeeds(acts, steps0[cur][|steps0[cur]| - 1], x)
      ensures var steps1 := Pushed(steps0, cur, x);
        && Shape(what, steps1) && Walks(acts, steps1, cur) && Closed(pos, ofs, steps1, cur)
        && StepPos(steps1, cur, |steps1[cur]|) == StepPos(steps0, cur, |steps0[cur]|) + Slots(x)
        && Est(steps1[cur], |steps1[cur]|) == Est(steps0[cur], |steps0[cur]|) + MaxSize(x)
    {
      hide Shape;
      hide Walks;
      hide Apart;
      SumsGrow(steps0[cur], x);
      WalksMore(acts, steps0, cur, x);
      if IsRef(x) || IsDef(x) {
        FirstIsStart(acts, steps0, cur);
        BehindStart(steps0, cur);
      }
      ShapeMore(what0, steps0, cur, x);
    }

    // The next position is not used yet.
    lemma FreshHere(cur: nat, p: Pos, o: nat, x: Step)
      requires Open(cur, p, o) && Slots(x) > 0
      ensures p !in what && (Slots(x) == 2 ==> p + 1 !in what)
    {
      var i := Slot(steps[cur], |steps[cur]|);
      PosInSection(cur, i);
      PosInSection(cur, i + 1);
      assert p in what ==> Used(p, steps);
      assert p + 1 in what ==> Used(p + 1, steps);
    }

    // An action that takes no buffer position, with this many bytes of code.
    method PutCode(cur: nat, p: Pos, o: nat, size: nat, ghost x: Step) returns (o': nat)
      requires Open(cur, p, o) && Next(cur, x) && Slots(x) == 0 && MaxSize(x) == size
      modifies this`steps
      ensures Open(cur, p, o') && steps == Pushed(old(steps), cur, x)
    {
      hide Linked;
      hide Shape;
      hide Walks;
      hide Closed;
      hide Apart;
      hide Contents;
      NoContents(x, p, o, cur, |steps[cur]|);
      assert what == Grown(what, steps, cur, x);
      StepDone(steps, what, cur, x);
      steps := Pushed(steps, cur, x);
      o' := o + size;
    }

    // An action with a word that stays as it is, and at most this many bytes of code.
    method PutWord(cur: nat, p: Pos, o: nat, v: int, size: nat, ghost x: Step) returns (p': Pos, o': nat)
      requires Open(cur, p, o) && Next(cur, x) && Slots(x) == 1 && MaxSize(x) == size
      requires Contents(x, p, o, cur, |steps[cur]|) == map[p := Const(v)]
      modifies this`buf, this`what, this`steps
      ensures Open(cur, p', o') && steps == Pushed(old(steps), cur, x)
    {
      hide Linked;
      hide Shape;
      hide Walks;
      hide Closed;
      hide Apart;
      hide Contents;
      ghost var what0 := what;
      FreshHere(cur, p, o, x);
      SetWord(p, v, Const(v));
      assert what == Grown(what0, steps, cur, x);
      StepDone(steps, what0, cur, x);
      steps := Pushed(steps, cur, x);
      p', o' := p + 1, o + size;
    }

    // A reference: linked, and for a branch followed by the estimate of its end.
    method PutRef(cur: nat, p: Pos, o: nat, l: Lab, fwd: bool, rel: bool, ghost x: Step) returns (p': Pos, o': nat)
      requires Open(cur, p, o) && Next(cur, x) && IsRef(x) && RefLab(x) == l && IsFwd(x) == fwd && IsRel(x) == rel
      requires InTable(lg, pc, l) && (if fwd then Local(l) else MustBeKnown(l) ==> Entry(lg, pc, l) < 0)
      modifies this`buf, this`lg, this`pc, this`what, this`steps, this`log
      ensures Open(cur, p', o') && steps == Pushed(old(steps), cur, x) && log == old(log) + [Ref(p, l, fwd)]
      ensures |lg| == |old(lg)| && |pc| == |old(pc)|
    {
      hide Linked;
      hide Shape;
      hide Walks;
      hide Closed;
      hide Apart;
      hide Slot;
      hide Est;
      ghost var what0 := what;
      FreshHere(cur, p, o, x);
      FirstIsStart(acts, steps, cur);
      BehindStart(steps, cur);
      LinkRef(l, fwd, p);
      p', o' := p + 1, o + 4;
      if rel {
        SetWord(p', o', EndAt(cur, |steps[cur]|, o + 4));
        p' := p' + 1;
      }
      assert what == Grown(what0, steps, cur, x);
      StepDone(steps, what0, cur, x);
      steps := Pushed(steps, cur, x);
    }

    // A label.
    method PutLabel(cur: nat, p: Pos, o: nat, l: Lab, ghost x: Step) returns (p': Pos)
      requires Open(cur, p, o) && Next(cur, x) && IsDef(x) && DefLab(x) == l && InTable(lg, pc, l)
      modifies this`buf, this`lg, this`pc, this`what, this`steps, this`log
      ensures Open(cur, p', o) && steps == Pushed(old(steps), cur, x) && log == old(log) + [Def(p, l)]
      ensures |lg| == |old(lg)| && |pc| == |old(pc)|
    {
      hide Linked;
      hide Shape;
      hide Walks;
      hide Closed;
      hide Apart;
      ghost var what0 := what;
      FreshHere(cur, p, o, x);
      FirstIsStart(acts, steps, cur);
      BehindStart(steps, cur);
      DefineLabel(l, p, o, cur, |steps[cur]|);
      assert what == Grown(what0, steps, cur, x);
      StepDone(steps, what0, cur, x);
      steps := Pushed(steps, cur, x);
      p' := p + 1;
    }

    // The switch of dasm_put: one action with its argument. Checks that fail set the status.
    method PutAction(cur: nat, p: Pos, o: nat, a: nat, act: Action, n: int) returns (p': Pos, o': nat)
      requires Open(cur, p, o) && Next(cur, Act(a, act, n)) && act == Decode(acts, a).0
      requires !act.Other? && (act.Space? ==> n >= 0)
      modifies this`buf, this`lg, this`pc, this`what, this`steps, this`log, this`status, this`section
      ensures status.Ok? ==> Open(cur, p', o') && steps == Pushed(old(steps), cur, Act(a, act, n))
      ensures status.Ok? ==> log == old(log) + EventAt(Act(a, act, n), p)
      ensures status.Ok? <==> Passes(Act(a, act, n), Run(old(log)), old(Bounds()))
      ensures Bounds() == old(Bounds()) && (status.Ok? ==> section == Entered(Act(a, act, n), old(section)))
    {
      hide Linked;
      hide Shape;
      hide Walks;
      hide Closed;
      hide Apart;
      ghost var x := Act(a, act, n);
      p', o' := p, o;
      match act {
        case Byte(_) =>
          o' := PutCode(cur, p, o, 1, x);
        case Value(imm) =>
          if !InRange(imm, n) {
            status := RangeI(a);
            return;
          }
          p', o' := PutWord(cur, p, o, n, ImmSize(imm, n), x);
        case Space(_) =>
          p', o' := PutWord(cur, p, o, n, n, x);
        case RelLG(m) =>
          p', o' := PutNumbered(cur, p, o, a, m, true, x);
        case ImmLG(m) =>
          p', o' := PutNumbered(cur, p, o, a, m, false, x);
        case RelPC =>
          if !(0 <= n < |pc|) {
            status := RangePC(a);
            return;
          }
          p', o' := PutRef(cur, p, o, PC(n), false, true, x);
        case ImmPC =>
          if !(0 <= n < |pc|) {
            status := RangePC(a);
            return;
          }
          p', o' := PutRef(cur, p, o, PC(n), false, false, x);
        case LabelLG(m) =>
          if m >= |lg| {
            status := RangeLG(a + 1);
            return;
          }
          p' := PutLabel(cur, p, o, LG(m), x);
        case LabelPC =>
          if !(0 <= n < |pc|) {
            status := RangePC(a);
            return;
          }
          p' := PutLabel(cur, p, o, PC(n), x);
        case Align(mask) =>
          p', o' := PutWord(cur, p, o, o + mask, mask, x);
        case Section(m) =>
          if m >= maxsection {
            status := RangeSec(a);
            return;
          }
          section := m;
          o' := PutCode(cur, p, o, 0, x);
        case Stop =>
          o' := PutCode(cur, p, o, 0, x);
      }
    }

    // DASM_REL_LG and DASM_IMM_LG: numbers above 246 ask for the next definition of a local label.
    method PutNumbered(cur: nat, p: Pos, o: nat, a: nat, m: nat, rel: bool, ghost x: Step) returns (p': Pos, o': nat)
      requires Open(cur, p, o) && Next(cur, x) && IsRef(x) && IsRel(x) == rel && m <= 255
      requires x.act == (if rel then RelLG(m) else ImmLG(m))
      modifies this`buf, this`lg, this`pc, this`what, this`steps, this`log, this`status
      ensures status.Ok? ==> Open(cur, p', o') && steps == Pushed(old(steps), cur, x) && log == old(log) + EventAt(x, p)
      ensures status.Ok? <==> Passes(x, Run(old(log)), old(Bounds()))
      ensures Bounds() == old(Bounds())
    {
      hide Linked;
      hide Shape;
      hide Walks;
      hide Closed;
      hide Apart;
      hide Run;
      if m < 10 {
        KnownEntry(lg, pc, buf, what, log, LG(m));
      }
      p', o' := p, o;
      if m <= 246 {
        if m < 10 && lg[m] >= 0 {
          status := RangeLG(a + 1);
          return;
        }
        if m >= |lg| {
          status := RangeLG(a + 1);
          return;
        }
        p', o' := PutRef(cur, p, o, LG(m), false, rel, x);
      } else {
        p', o' := PutRef(cur, p, o, LG(m - 246), true, rel, x);
      }
    }

    // What the calls so far have come to.
    ghost function Now(): Stage
      reads this`steps, this`section, this`log
    {
      Stage(steps, section, log)
    }

    // dasm_put: the actions from `start` on, with their arguments.
    method Put(start: nat, args: seq<int>)
      requires Valid() && status.Ok? && WellFormed(acts, Now(), Call(start, args))
      modifies this`buf, this`lg, this`pc, this`what, this`steps, this`log, this`status, this`section, this`pos,
               this`ofs
      ensures Valid() && Bounds() == old(Bounds())
      ensures status.Ok? <==> CallPasses(acts, old(Now()), Call(start, args), old(Bounds()))
      ensures status.Ok? ==> Now() == After(acts, old(Now()), Call(start, args))
    {
      hide Linked;
      hide Shape;
      hide Walks;
      hide Closed;
      hide Apart;
      hide Patchable;
      hide Program;
      hide Complete;
      hide Events;
      hide Slot;
      hide Est;
      ghost var cur0, more := steps[section], Added(acts, Call(start, args));
      ghost var all, log0 := cur0 + more, log;
      var cur := section;
      var p, o := OpenSection();
      StartFits(acts, steps, cur, start, args, all);
      p, o := PutWord(cur, p, o, start, 0, Start(start));
      EventsGrow(cur0, Start(start), SecBase(cur), |cur0|);
      NoEvents(cur0, SecBase(cur), |cur0|);
      p, o := PutActions(cur, p, o, start, args, all, |cur0|, log0);
      if status.Ok? {
        PatchableWhole(acts, cur0, more, all);
        SaveSection(cur, p, o);
      }
    }

    // Where the loop of dasm_put stands.
    ghost predicate Putting(cur: nat, p: Pos, o: nat, a: nat, rest: seq<int>, stop: bool, all: seq<Step>, n0: nat,
                            log0: seq<Event>)
      reads this
    {
      && Open(cur, p, o) && n0 < |steps[cur]| <= |all|
      && log == log0 + Events(steps[cur], SecBase(cur), n0, |steps[cur]|)
      && (forall j :: n0 <= j < |steps[cur]| ==> PassesAt(all, SecBase(cur), n0, j, log0, Bounds()))
      && if stop then steps[cur] == all && Finished(all) else Remains(acts, a, rest, steps[cur], all)
    }

    // The loop of dasm_put.
    method PutActions(cur: nat, p0: Pos, o0: nat, start: nat, args: seq<int>, ghost all: seq<Step>, ghost n0: nat,
                      ghost log0: seq<Event>)
        returns (p: Pos, o: nat)
      requires Putting(cur, p0, o0, start, args, false, all, n0, log0)
      modifies this`buf, this`lg, this`pc, this`what, this`steps, this`log, this`status, this`section
      ensures status.Ok? ==> Putting(cur, p, o, 0, [], true, all, n0, log0)
      ensures status.Ok? ==> steps == old(steps)[cur := all] && section == Entered(all[|all| - 1], old(section))
      ensures status.Ok? <==>
        (forall j :: n0 <= j < |all| ==> PassesAt(all, SecBase(cur), n0, j, log0, old(Bounds())))
      ensures Bounds() == old(Bounds())
    {
      hide Linked;
      hide Shape;
      hide Walks;
      hide Closed;
      hide Apart;
      hide Patchable;
      hide Program;
      hide Complete;
      hide Events;
      hide Slot;
      hide Est;
      hide PassesAt;
      var a, rest, stop := start, args, false;
      p, o := p0, o0;
      while !stop
        invariant Putting(cur, p, o, a, rest, stop, all, n0, log0) && steps == old(steps)[cur := steps[cur]]
        invariant Bounds() == old(Bounds())
        invariant section == if stop then Entered(all[|all| - 1], old(section)) else old(section)
        decreases !stop, |acts| - a
      {
        p, o, a, rest, stop := PutNext(cur, p, o, a, rest, all, n0, log0);
        if !status.Ok? {
          return;
        }
      }
    }

    // One action: decoded, and given its argument.
    method PutNext(cur: nat, p: Pos, o: nat, a: nat, rest: seq<int>, ghost all: seq<Step>, ghost n0: nat,
                   ghost log0: seq<Event>)
        returns (p': Pos, o': nat, a': nat, rest': seq<int>, stop: bool)
      requires Putting(cur, p, o, a, rest, false, all, n0, log0)
      modifies this`buf, this`lg, this`pc, this`what, this`steps, this`log, this`status, this`section
      ensures status.Ok? ==>
        Putting(cur, p', o', a', rest', stop, all, n0, log0) && steps == old(steps)[cur := steps[cur]]
      ensures status.Ok? ==> section == if stop then Entered(all[|all| - 1], old(section)) else old(section)
      ensures stop || (a < a' <= |acts|)
      ensures |old(steps[cur])| < |all|
      ensures !status.Ok? ==> !PassesAt(all, SecBase(cur), n0, |old(steps[cur])|, log0, old(Bounds()))
      ensures Bounds() == old(Bounds())
    {
      hide Linked, Shape, Walks, Closed, Apart, Patchable, Program, Complete, Events, Slot, Est, Decode;
      Remaining(acts, a, rest, steps[cur], all);
      var (act, len) := Decode(acts, a);
      var n := if TakesArg(act) then rest[0] else 0;
      ghost var x, before := Act(a, act, n), steps[cur];
      RoomFor(steps, cur, all, x);
      a', rest', stop := a + len, if TakesArg(act) then rest[1..] else rest, Ends(act);
      EventsOfPrefix(all, before, SecBase(cur), n0);
      p', o' := PutAction(cur, p, o, a, act, n);
      if status.Ok? {
        EventsGrow(before, x, SecBase(cur), n0);
      }
    }

    // dasm_checkstep: no reference may wait for a local label; all of them are cleared.
    method CheckStep(secmatch: int)
      requires Valid()
      modifies this`lg, this`log, this`status
      ensures Valid()
      ensures Bounds() == old(Bounds())
      ensures !old(status).Ok? ==> status == old(status) && lg == old(lg) && log == old(log)
      ensures old(status).Ok? ==>
        (status.Ok? <==> NoLocalWaits(old(log)) && (secmatch >= 0 ==> section == secmatch))
      ensures status.Ok? ==> log == old(log) + [Forget] && NoLocalWaits(log)
      ensures old(status).Ok? && !status.Ok? ==>
        if NoLocalWaits(old(log)) then status == MatchSec(section)
        else status.UndefL? && FirstWaiting(old(log), status.n)
    {
      hide Words;
      hide Labels;
      hide Shape;
      hide Walks;
      hide Closed;
      if !status.Ok? {
        return;
      }
      forall n: nat | 1 <= n < 10 ensures lg[n] > 0 <==> Pending(Run(log), LG(n)) != [] {
        EntrySignOf(lg, pc, buf, what, log, LG(n));
      }
      var i := 1;
      while i <= 9
        invariant 1 <= i <= 10 && |lg| == |old(lg)| && status.Ok?
        invariant forall n :: 0 <= n < |lg| ==> lg[n] == if 1 <= n < i then 0 else old(lg)[n]
        invariant forall n :: 1 <= n < i ==> old(lg)[n] <= 0
        modifies this`lg, this`status
      {
        if lg[i] > 0 {
          status := UndefL(i);
          return;
        }
        lg := lg[i := 0];
        i := i + 1;
      }
      LinkedForget(old(lg), pc, buf, what, log, lg);
      forall n: nat | 1 <= n < 10 ensures Pending(Run(old(log)), LG(n)) == [] {
        assert old(lg)[n] <= 0;
      }
      log := log + [Forget];
      if secmatch >= 0 && section != secmatch {
        status := MatchSec(section);
      }
    }

    // Label n is the first local label that a reference waits for.
    ghost predicate FirstWaiting(log: seq<Event>, n: nat) {
      && 1 <= n < 10 && Pending(Run(log), LG(n)) != []
      && forall m: nat :: 1 <= m < n ==> Pending(Run(log), LG(m)) == []
    }

    // The section's end is written back.
    method SaveSection(cur: nat, p: Pos, o: nat)
      requires Open(cur, p, o) && Finished(steps[cur]) && Patchable(acts, steps[cur])
      modifies this`pos, this`ofs
      ensures Valid() && status == old(status)
    {
      pos := pos[cur := p];
      ofs := ofs[cur := o];
    }

    // The end of the section that is written to.
    method OpenSection() returns (p: Pos, o: nat)
      requires Valid() && status.Ok?
      ensures Open(section, p, o) && Finished(steps[section]) && Patchable(acts, steps[section])
    {
      p, o := pos[section], ofs[section];
    }

    // --------------------------------------------------------------------------- pass 2

    // dasm_link: fails if a check failed before, or some reference waits for a PC label. A reference that
    // waits for a local label makes it read the first word of section 0, which has to be there.
    method Link() returns (st: Status)
      requires Valid() && (status.Ok? && !NoLocalWaits(log) ==> steps[0] != [])
      modifies this`buf, this`codesize, this`at
      ensures st.Ok? <==> status.Ok? && forall n: nat :: n < |pc| ==> Pending(Run(log), PC(n)) == []
      ensures st.Ok? ==> Ready()
      ensures !status.Ok? ==> st == status
      ensures status.Ok? && !st.Ok? ==>
        && st.UndefPC? && st.n < |pc| && Pending(Run(log), PC(st.n)) != []
        && forall m: nat :: m < st.n ==> Pending(Run(log), PC(m)) == []
    {
      hide Words;
      hide Labels;
      hide Shape;
      hide Walks;
      hide Closed;
      hide Apart;
      hide EntryOk;
      if !status.Ok? {
        return status;
      }
      var n := 0;
      while n < |pc|
        invariant n <= |pc| && forall m: nat :: m < n ==> Pending(Run(log), PC(m)) == []
        modifies {}
      {
        EntrySignOf(lg, pc, buf, what, log, PC(n));
        if pc[n] > 0 {
          return UndefPC(n);
        }
        n := n + 1;
      }
      ghost var buf0 := buf;
      MarkGlobals();
      OnlyGlobalsWait(lg, pc, buf0, what, log);
      PcReady(lg, pc, buf0, what, log);
      StrayWords(lg, pc, buf0, what, log);
      StraysHere(acts, steps, buf0, what, log);
      FixedStart(acts, steps, what, log, buf0, buf, |lg|);
      at := [[0]];
      LinkSections();
      st := Ok;
    }

    // Built, and laid out: ready to be encoded.
    ghost predicate Ready()
      reads this
    {
      && |steps| == maxsection && Closed(pos, ofs, steps, -1)
      && LabelsListed(lg, pc, what) && PendingListed(lg, pc, Run(log)) && PcDefined(pc, what, Run(log))
      && DefsOk(what, Run(log)) && Waiting(what, Run(log))
      && Built(acts, steps, what, Run(log)) && Fixed(buf, acts, steps, what, Run(log), at, codesize)
    }

    // All sections before section `sec` are linked; the next one starts at o.
    ghost predicate Between(sec: nat, o: int)
      reads this
    {
      && |steps| == maxsection && sec <= |steps| && Closed(pos, ofs, steps, -1) && Built(acts, steps, what, Run(log))
      && Laid(at, steps, buf, sec, 0) && FixedTo(buf, acts, steps, what, Run(log), at, sec, 0) && at[sec][0] == o
    }

    // Step k of section `sec`, at p, comes next; o is the difference to the estimates of this section.
    ghost predicate Linking(sec: nat, k: nat, p: Pos, o: int)
      reads this
    {
      && |steps| == maxsection && sec < |steps| && k <= |steps[sec]| && p == StepPos(steps, sec, k)
      && Closed(pos, ofs, steps, -1) && Built(acts, steps, what, Run(log))
      && Laid(at, steps, buf, sec, k) && FixedTo(buf, acts, steps, what, Run(log), at, sec, k)
      && at[sec][k] == Est(steps[sec], k) + o
    }

    method LinkSections()
      requires Between(0, 0)
      modifies this`buf, this`codesize, this`at
      ensures Between(maxsection, codesize)
    {
      var o, sec := 0, 0;
      while sec < maxsection
        invariant sec <= maxsection && Between(sec, o)
      {
        o := LinkSection(sec, o);
        sec := sec + 1;
      }
      codesize := o;
    }

    method LinkSection(sec: nat, o0: int) returns (o: int)
      requires sec < maxsection && Between(sec, o0)
      modifies this`buf, this`at
      ensures Between(sec + 1, o)
    {
      hide Built;
      hide Laid;
      hide FixedTo;
      SectionBegins(acts, steps, what, Run(log), sec);
      var p := SecBase(sec);
      ghost var k := 0;
      o := o0;
      while p != pos[sec]
        invariant Linking(sec, k, p, o) && (k < |steps[sec]| ==> steps[sec][k].Start?)
        decreases |steps[sec]| - k
      {
        EndOfSection(steps, sec, k);
        p, o, k := LinkPut(sec, k, p, o);
      }
      EndOfSection(steps, sec, k);
      LaidSection(at, steps, buf, sec);
      FixedNext(buf, acts, steps, what, Run(log), at, sec);
      LaidEnd(at, steps, buf, sec);
      at := at + [[at[sec][|steps[sec]|]]];
      o := o + ofs[sec];
    }

    // The actions of one dasm_put.
    method LinkPut(sec: nat, ghost k0: nat, p0: Pos, o0: int) returns (p: Pos, o: int, ghost k: nat)
      requires Linking(sec, k0, p0, o0) && k0 < |steps[sec]| && steps[sec][k0].Start?
      modifies this`buf, this`at
      ensures Linking(sec, k, p, o) && k0 < k && (k < |steps[sec]| ==> steps[sec][k].Start?)
    {
      hide Laid;
      hide FixedTo;
      hide Shape;
      hide Walks;
      hide Apart;
      WordOfStep(buf, acts, steps, what, Run(log), at, sec, k0);
      var q := buf[p0];
      p, o := LinkOther(sec, k0, p0, o0, 1);
      k := k0 + 1;
      NextStep(acts, steps, sec, k0);
      while true
        invariant Linking(sec, k, p, o) && k0 < k < |steps[sec]| && steps[sec][k].Act? && q == steps[sec][k].q
        decreases |steps[sec]| - k
      {
        NextStep(acts, steps, sec, k);
        var (act, len) := Decode(acts, q);
        p, o := LinkAction(sec, k, q, act, p, o);
        k := k + 1;
        if Ends(act) {
          break;
        }
        q := q + len;
      }
    }

    // The switch of dasm_link.
    method LinkAction(sec: nat, ghost k: nat, q: nat, act: Action, p: Pos, o: int) returns (p': Pos, o': int)
      requires Linking(sec, k, p, o) && k < |steps[sec]| && steps[sec][k].Act? && q == steps[sec][k].q &&
        act == steps[sec][k].act
      requires !act.Other?
      modifies this`buf, this`at
      ensures Linking(sec, k + 1, p', o')
    {
      hide Laid;
      hide FixedTo;
      hide Built;
      match act {
        case RelLG(_) => p', o' := LinkRel(sec, k, q, p, o);
        case RelPC => p', o' := LinkRel(sec, k, q, p, o);
        case LabelLG(_) => p', o' := LinkLabel(sec, k, p, o);
        case LabelPC => p', o' := LinkLabel(sec, k, p, o);
        case Align(mask) => p', o' := LinkAlign(sec, k, mask, p, o);
        case Value(_) => p', o' := LinkOther(sec, k, p, o, 1);
        case Space(_) => p', o' := LinkOther(sec, k, p, o, 1);
        case ImmLG(_) => p', o' := LinkOther(sec, k, p, o, 1);
        case ImmPC => p', o' := LinkOther(sec, k, p, o, 1);
        case Byte(_) => p', o' := LinkOther(sec, k, p, o, 0);
        case Section(_) => p', o' := LinkOther(sec, k, p, o, 0);
        case Stop => p', o' := LinkOther(sec, k, p, o, 0);
      }
    }

    // Nothing changes.
    method LinkOther(sec: nat, ghost k: nat, p: Pos, o: int, slots: nat) returns (p': Pos, o': int)
      requires Linking(sec, k, p, o) && k < |steps[sec]| && slots == Slots(steps[sec][k])
      requires !IsRel(steps[sec][k]) && !IsDef(steps[sec][k]) && !IsAlign(steps[sec][k])
      modifies this`at
      ensures Linking(sec, k + 1, p', o')
    {
      hide Laid;
      hide FixedTo;
      hide Built;
      hide Decision;
      RewrittenPlain(buf, acts, steps, what, Run(log), at, sec, k);
      DecisionBounds(acts, steps, what, Run(log), at, sec, k);
      at := Advanced(buf, acts, steps, what, Run(log), at, sec, k, buf, o, o);
      p', o' := p + slots, o;
    }

    // The offset of a label is fixed.
    method LinkLabel(sec: nat, ghost k: nat, p: Pos, o: int) returns (p': Pos, o': int)
      requires Linking(sec, k, p, o) && k < |steps[sec]| && IsDef(steps[sec][k])
      modifies this`buf, this`at
      ensures Linking(sec, k + 1, p', o')
    {
      hide Laid;
      hide FixedTo;
      hide Built;
      hide Decision;
      WordOfStep(buf, acts, steps, what, Run(log), at, sec, k);
      LaidHere(at, steps, buf, sec, k);
      var v := buf[p] + o;
      RewrittenLabel(buf, acts, steps, what, Run(log), at, sec, k, p, v);
      DecisionBounds(acts, steps, what, Run(log), at, sec, k);
      at := Advanced(buf, acts, steps, what, Run(log), at, sec, k, buf[p := v], o, o);
      buf := buf[p := v];
      p', o' := p + 1, o;
    }

    // The padding is known; the difference grows by what is not needed.
    method LinkAlign(sec: nat, ghost k: nat, mask: nat, p: Pos, o: int) returns (p': Pos, o': int)
      requires Linking(sec, k, p, o) && k < |steps[sec]| && IsAlign(steps[sec][k]) && mask == steps[sec][k].act.mask
      modifies this`at
      ensures Linking(sec, k + 1, p', o')
    {
      hide Laid;
      hide FixedTo;
      hide Built;
      hide Decision;
      WordOfStep(buf, acts, steps, what, Run(log), at, sec, k);
      RewrittenPlain(buf, acts, steps, what, Run(log), at, sec, k);
      DecisionBounds(acts, steps, what, Run(log), at, sec, k);
      LaidHere(at, steps, buf, sec, k);
      PadAdjusts(at[sec][k], mask);
      o' := o - And(buf[p] + o, mask);
      at := Advanced(buf, acts, steps, what, Run(log), at, sec, k, buf, o, o');
      p' := p + 1;
    }

    // A branch shrinks if its label is near enough.
    method LinkRel(sec: nat, ghost k: nat, q: nat, p: Pos, o: int) returns (p': Pos, o': int)
      requires Linking(sec, k, p, o) && k < |steps[sec]| && IsRel(steps[sec][k]) && q == steps[sec][k].q
      modifies this`buf, this`at
      ensures Linking(sec, k + 1, p', o')
    {
      hide Laid;
      hide FixedTo;
      hide Built;
      hide Decision;
      var shrink := ShrinkBy(sec, k, q, p, o);
      RewrittenRel(buf, acts, steps, what, Run(log), at, sec, k, p + 1, shrink);
      at := Advanced(buf, acts, steps, what, Run(log), at, sec, k, buf[p + 1 := shrink], o, o - shrink);
      buf := buf[p + 1 := shrink];
      p', o' := p + 2, o - shrink;
    }

    method ShrinkBy(sec: nat, ghost k: nat, q: nat, p: Pos, o: int) returns (shrink: nat)
      requires Linking(sec, k, p, o) && k < |steps[sec]| && IsRel(steps[sec][k]) && q == steps[sec][k].q
      ensures shrink == Decision(acts, steps, what, Run(log), at, sec, k)
    {
      hide Laid;
      hide FixedTo;
      hide Built;
      hide Stray;
      hide StrayWord;
      hide StrayValue;
      hide StrayDistance;
      hide HasLabel;
      hide Decision;
      shrink := Shrink(Opcode(acts, q));
      if shrink == 0 {
        NoShrink(sec, k);
        return;
      }
      WordOfStep(buf, acts, steps, what, Run(log), at, sec, k);
      LabelOfRef(buf, acts, steps, what, Run(log), at, sec, k);
      var lpos := buf[p];
      if lpos < 0 {
        NoLabel(sec, k);
        return 0;
      }
      var lofs := LabelDistance(sec, p, lpos, o);
      DecisionIs(sec, k, p, o, lofs);
      if !(-128 - shrink <= lofs <= 127) {
        shrink := 0;
      }
    }

    lemma NoShrink(sec: nat, k: nat)
      requires sec < |steps| && k < |steps[sec]| && IsRel(steps[sec][k]) && Shrink(Opcode(acts, steps[sec][k].q)) == 0
      ensures Decision(acts, steps, what, Run(log), at, sec, k) == 0
    {
    }

    lemma NoLabel(sec: nat, k: nat)
      requires sec < |steps| && k < |steps[sec]|
      requires var p := StepPos(steps, sec, k); p !in Run(log).target && !Stray(what, Run(log), p)
      ensures Decision(acts, steps, what, Run(log), at, sec, k) == 0
    {
    }

    // From the estimated end of the branch at p to what the word at lpos says.
    method LabelDistance(sec: nat, p: Pos, lpos: Pos, o: int) returns (lofs: int)
      requires |steps| == maxsection && Closed(pos, ofs, steps, -1) && sec < |steps|
      requires lpos in buf && p + 1 in buf && (lpos > p ==> sec <= SecOf(lpos) < |steps|)
      ensures lofs == buf[lpos] - buf[p + 1] +
        if lpos > p then SectionStart(steps, SecOf(lpos)) - SectionStart(steps, sec) else -o
    {
      lofs := buf[lpos];
      if lpos > p {
        var i: int := sec;
        StartsApart(steps, ofs, sec, SecOf(lpos));
        while i < SecOf(lpos)
          invariant sec <= i <= SecOf(lpos) && lofs == buf[lpos] + SumOfs(ofs, sec, i)
        {
          lofs := lofs + ofs[i];
          i := i + 1;
        }
      } else {
        lofs := lofs - o;
      }
      lofs := lofs - buf[p + 1];
    }

    // That is the distance that counts.
    lemma DecisionIs(sec: nat, k: nat, p: Pos, o: int, lofs: int)
      requires Linking(sec, k, p, o) && k < |steps[sec]| && IsRel(steps[sec][k]) && p in buf && buf[p] >= 0
      requires buf[p] in buf && p + 1 in buf && (buf[p] > p ==> 0 <= SecOf(buf[p]) < |steps|)
      requires lofs == buf[buf[p]] - buf[p + 1] +
        if buf[p] > p then SectionStart(steps, SecOf(buf[p])) - SectionStart(steps, sec) else -o
      ensures var sh := Shrink(Opcode(acts, steps[sec][k].q));
        sh > 0 ==> Decision(acts, steps, what, Run(log), at, sec, k) == if -128 - sh <= lofs <= 127 then sh else 0
    {
      hide Laid;
      hide FixedTo;
      hide Built;
      hide Stray;
      hide StrayWord;
      hide StrayValue;
      hide Closed;
      WordOfStep(buf, acts, steps, what, Run(log), at, sec, k);
      LabelOfRef(buf, acts, steps, what, Run(log), at, sec, k);
      LaidHere(at, steps, buf, sec, k);
    }

    // References to globals that are not defined get the number of the global, negated.
    method MarkGlobals()
      requires Chained() && 10 <= |lg|
      modifies this`buf
      ensures forall p :: p in what ==> p in buf && MarkedWord(buf[p], old(buf)[p], p, what[p], Run(log), |lg|)
    {
      hide Labels;
      hide WordOk;
      var idx := 10;
      while idx < |lg|
        invariant 10 <= idx <= |lg| && Words(old(buf), what, Run(log)) && buf.Keys == old(buf).Keys
        invariant forall p :: p in what ==> p in buf && MarkedWord(buf[p], old(buf)[p], p, what[p], Run(log), idx)
      {
        ghost var ps, before := Pending(Run(log), LG(idx)), buf;
        EntrySignOf(lg, pc, old(buf), what, log, LG(idx));
        WaitOnceHere(what, log, LG(idx));
        ChainStays(lg, pc, old(buf), buf, what, log, idx);
        CollapseChain(lg[idx], 0 - idx, ps);
        forall p | p in what ensures p in buf && MarkedWord(buf[p], old(buf)[p], p, what[p], Run(log), idx + 1) {
          MarkedMore(old(buf), before, buf, what, log, p, idx);
        }
        idx := idx + 1;
      }
    }

    // --------------------------------------------------------------------------- pass 3

    // What is encoded, for code that will run at this address.
    ghost function TheCode(base: int, gl: seq<int>): Code
      reads this
    {
      Code(acts, steps, buf, what, Run(log), at, codesize, base, gl)
    }

    // Step k of section `sec`, at p, comes next; `out` is the code before it.
    ghost predicate Encoding(c: Code, out: seq<int>, sec: nat, k: nat, p: Pos)
      reads this
    {
      && Ready() && c == TheCode(c.base, c.globals) && CodeOk(c) && |c.globals| == |lg|
      && sec < |steps| && k <= |steps[sec]| && p == StepPos(steps, sec, k)
      && |out| == AtOf(at, sec, k) && Image(c, out, sec, k) && globals == GlobalsAt(c, sec, k)
    }

    // dasm_encode: for code that will run at `base`. A size that differs from dasm_link's would be an error.
    method Encode(base: int) returns (st: Status, out: seq<int>)
      requires Ready() && |globals| == |lg|
      modifies this`globals
      ensures Ready() && st.Ok? && |out| == codesize
      ensures var c := TheCode(base, old(globals));
        CodeOk(c) && Image(c, out, maxsection, 0) && globals == GlobalsAt(c, maxsection, 0)
    {
      hide Built;
      hide Fixed;
      hide Image;
      hide Closed;
      hide DefsOk;
      ghost var c := TheCode(base, globals);
      out := [];
      var sec := 0;
      EncodingStarts(c);
      while sec < maxsection
        invariant sec <= maxsection && Ready() && c == TheCode(c.base, c.globals) && CodeOk(c) && |c.globals| == |lg|
        invariant |out| == AtOf(at, sec, 0) && Image(c, out, sec, 0) && globals == GlobalsAt(c, sec, 0)
      {
        out := EncodeSection(c, out, base, sec);
        sec := sec + 1;
      }
      EncodingEnds(c);
      st := if |out| != codesize then Phase else Ok;
    }

    method EncodeSection(ghost c: Code, out0: seq<int>, base: int, sec: nat) returns (out: seq<int>)
      requires sec < maxsection && Ready() && c == TheCode(c.base, c.globals) && CodeOk(c) && |c.globals| == |lg| &&
        base == c.base
      requires |out0| == AtOf(at, sec, 0) && Image(c, out0, sec, 0) && globals == GlobalsAt(c, sec, 0)
      modifies this`globals
      ensures |out| == AtOf(at, sec + 1, 0) && Image(c, out, sec + 1, 0) && globals == GlobalsAt(c, sec + 1, 0)
    {
      hide Built;
      hide Fixed;
      hide Image;
      hide DefsOk;
      SectionBegins(acts, steps, what, Run(log), sec);
      var p := SecBase(sec);
      ghost var k := 0;
      out := out0;
      while p != pos[sec]
        invariant Encoding(c, out, sec, k, p) && (k < |steps[sec]| ==> steps[sec][k].Start?)
        decreases |steps[sec]| - k
      {
        EndOfSection(steps, sec, k);
        out, p, k := EncodePut(c, out, base, sec, k, p);
      }
      EndOfSection(steps, sec, k);
      ImageNext(c, out, sec);
      SectionEnds(c, sec);
    }

    // The actions of one dasm_put.
    method EncodePut(ghost c: Code, out0: seq<int>, base: int, sec: nat, ghost k0: nat, p0: Pos)
        returns (out: seq<int>, p: Pos, ghost k: nat)
      requires Encoding(c, out0, sec, k0, p0) && k0 < |steps[sec]| && steps[sec][k0].Start? && base == c.base
      modifies this`globals
      ensures Encoding(c, out, sec, k, p) && k0 < k && (k < |steps[sec]| ==> steps[sec][k].Start?)
    {
      hide Fixed;
      hide Image;
      hide DefsOk;
      hide Shape;
      hide Walks;
      hide Apart;
      FinalWords(c, sec, k0);
      var q := buf[p0];
      NothingEmitted(c, out0, sec, k0);
      out, p, k := out0, p0 + 1, k0 + 1;
      NextStep(acts, steps, sec, k0);
      while true
        invariant Encoding(c, out, sec, k, p) && k0 < k < |steps[sec]| && steps[sec][k].Act? && q == steps[sec][k].q
        decreases |steps[sec]| - k
      {
        NextStep(acts, steps, sec, k);
        var (act, len) := Decode(acts, q);
        out, p := EncodeAction(c, out, base, sec, k, act, p);
        k := k + 1;
        if Ends(act) {
          break;
        }
        q := q + len;
      }
    }

    // The switch of dasm_encode.
    method EncodeAction(ghost c: Code, out: seq<int>, base: int, sec: nat, ghost k: nat, act: Action, p: Pos)
        returns (out': seq<int>, p': Pos)
      requires Encoding(c, out, sec, k, p) && k < |steps[sec]| && steps[sec][k].Act? && act == steps[sec][k].act
      requires !act.Other? && base == c.base
      modifies this`globals
      ensures Encoding(c, out', sec, k + 1, p')
    {
      hide Fixed;
      hide Image;
      hide DefsOk;
      hide Built;
      hide Emits;
      hide Patches;
      FinalWords(c, sec, k);
      p' := p;
      match act {
        case Byte(b) =>
          out' := out + [b % 256];
          ByteEmitted(c, out, sec, k, out');
        case Value(imm) =>
          out' := EncodeValue(c, out, sec, k, p, imm, buf[p]);
          p' := p + 1;
        case Space(fill) =>
          out' := EncodeSpace(c, out, sec, k, p, fill, buf[p]);
          p' := p + 1;
        case RelLG(_) =>
          out' := EncodeRel(c, out, base, sec, k, p);
          p' := p + 2;
        case RelPC =>
          out' := EncodeRel(c, out, base, sec, k, p);
          p' := p + 2;
        case ImmLG(_) =>
          out' := EncodeImmRef(c, out, base, sec, k, p);
          p' := p + 1;
        case ImmPC =>
          out' := EncodeImmRef(c, out, base, sec, k, p);
          p' := p + 1;
        case LabelLG(idx) =>
          LabelKnown(c, sec, k, lg, pc);
          if idx >= 10 {
            globals := globals[idx := base + buf[p]];
          }
          out' := out;
          NothingEmitted(c, out, sec, k);
          p' := p + 1;
        case LabelPC =>
          out' := out;
          NothingEmitted(c, out, sec, k);
          p' := p + 1;
        case Align(mask) =>
          out' := EncodeAlign(c, out, sec, k, p, mask);
          p' := p + 1;
        case Section(_) =>
          out' := out;
          NothingEmitted(c, out, sec, k);
        case Stop =>
          out' := out;
          NothingEmitted(c, out, sec, k);
      }
      ImageMore(c, out, out', sec, k);
    }

    // An immediate; the short form also changes the opcode two bytes back.
    method EncodeValue(ghost c: Code, out: seq<int>, sec: nat, ghost k: nat, ghost p: Pos, imm: Imm, n: int)
      returns (out': seq<int>)
      requires Encoding(c, out, sec, k, p) && k < |steps[sec]|
      requires steps[sec][k].Act? && steps[sec][k].act == Value(imm) && n == steps[sec][k].n
      ensures Patches(c, out, out', sec, k) && Emits(c, out', sec, k, k + 1) && |out'| == AtOf(at, sec, k + 1)
    {
      hide Fixed;
      hide Image;
      hide DefsOk;
      hide Built;
      hide LE;
      StepEnds(c, sec, k);
      PatchedSteps(c, sec, k);
      BytesBefore(c, out, sec, k);
      if (imm.ImmWB? || imm.ImmDB?) && ShortImm(n) {
        out' := out[|out| - 2 := (out[|out| - 2] + 2) % 256] + LE(n, 1);
        assert out'[|out|..] == LE(n, 1);
      } else {
        out' := out + LE(n, ImmSize(imm, n));
        assert out'[|out|..] == LE(n, ImmSize(imm, n));
      }
    }

    method EncodeSpace(ghost c: Code, out: seq<int>, sec: nat, ghost k: nat, ghost p: Pos, fill: int, n: int)
      returns (out': seq<int>)
      requires Encoding(c, out, sec, k, p) && k < |steps[sec]|
      requires steps[sec][k].Act? && steps[sec][k].act == Space(fill) && n == steps[sec][k].n
      ensures Patches(c, out, out', sec, k) && Emits(c, out', sec, k, k + 1) && |out'| == AtOf(at, sec, k + 1)
    {
      hide Fixed;
      hide Image;
      hide DefsOk;
      hide Built;
      StepEnds(c, sec, k);
      out' := out;
      var i := 0;
      while i < n
        invariant 0 <= i && (n >= 0 ==> i <= n) && (n < 0 ==> i == 0) && |out'| == |out| + i && out <= out'
        invariant forall j :: |out| <= j < |out'| ==> out'[j] == fill % 256
      {
        out' := out' + [fill % 256];
        i := i + 1;
      }
    }

    // Nops up to the next aligned position.
    method EncodeAlign(ghost c: Code, out: seq<int>, sec: nat, ghost k: nat, ghost p: Pos, mask: nat)
      returns (out': seq<int>)
      requires Encoding(c, out, sec, k, p) && k < |steps[sec]|
      requires IsAlign(steps[sec][k]) && steps[sec][k].act.mask == mask
      ensures Patches(c, out, out', sec, k) && Emits(c, out', sec, k, k + 1) && |out'| == AtOf(at, sec, k + 1)
    {
      hide Fixed;
      hide Image;
      hide DefsOk;
      hide Built;
      StepEnds(c, sec, k);
      out' := out;
      PadFits(|out|, mask, 0);
      while And(|out'|, mask) != 0
        invariant |out'| <= |out| + Pad(|out|, mask) && out <= out'
        invariant And(|out'|, mask) == 0 <==> |out'| == |out| + Pad(|out|, mask)
        invariant forall j :: |out| <= j < |out'| ==> out'[j] == 0x90
        decreases |out| + Pad(|out|, mask) - |out'|
      {
        out' := out' + [0x90];
        PadFits(|out|, mask, |out'| - |out|);
      }
    }

    // A branch: four bytes, or one with a shorter opcode.
    method EncodeRel(ghost c: Code, out: seq<int>, base: int, sec: nat, ghost k: nat, p: Pos) returns (out': seq<int>)
      requires Encoding(c, out, sec, k, p) && k < |steps[sec]| && IsRel(steps[sec][k]) && base == c.base
      ensures Patches(c, out, out', sec, k) && Emits(c, out', sec, k, k + 1) && |out'| == AtOf(at, sec, k + 1)
    {
      hide Fixed;
      hide Image;
      hide DefsOk;
      hide Built;
      hide LE;
      hide Emits;
      FinalWords(c, sec, k);
      StepEnds(c, sec, k);
      PatchedSteps(c, sec, k);
      CutIsDecision(c, sec, k);
      BytesBefore(c, out, sec, k);
      var n := buf[p];
      if n < 0 {
        ExternHere(c, sec, k, lg, pc);
        n := globals[-n] - (base + |out| + 4);
        out' := out + LE(n, 4);
        assert out'[|out|..] == LE(n, 4) && n == RefValue(c, sec, k);
      } else {
        var shrink := buf[p + 1];
        n := buf[n] - (|out| + 4 - shrink);
        assert n == RefValue(c, sec, k);
        if shrink == 0 {
          out' := out + LE(n, 4);
          assert out'[|out|..] == LE(n, 4);
        } else if shrink == 4 {
          var last := out[|out| - 1];
          out' := out[..|out| - 1];
          out' := out'[|out'| - 1 := (last - 0x10) % 256];
          out' := out' + [n % 256];
        } else {
          out' := out[|out| - 1 := 0xeb] + [n % 256];
        }
      }
      RelEmits(c, out', sec, k);
    }

    // The address of a label, or of an external global.
    method EncodeImmRef(ghost c: Code, out: seq<int>, base: int, sec: nat, ghost k: nat, p: Pos)
      returns (out': seq<int>)
      requires Encoding(c, out, sec, k, p) && k < |steps[sec]| && IsImmRef(steps[sec][k]) && base == c.base
      ensures Patches(c, out, out', sec, k) && Emits(c, out', sec, k, k + 1) && |out'| == AtOf(at, sec, k + 1)
    {
      hide Fixed;
      hide Image;
      hide DefsOk;
      hide Built;
      hide LE;
      FinalWords(c, sec, k);
      StepEnds(c, sec, k);
      var n := buf[p];
      if n < 0 {
        ExternHere(c, sec, k, lg, pc);
        n := globals[-n];
      } else {
        n := buf[n] + base;
      }
      out' := out + LE(n, 4);
      assert out'[|out|..] == LE(n, 4);
    }

    // dasm_getpclabel: the offset of a PC label; -2 if it is unused or out of range.
    method GetPcLabel(n: nat) returns (r: int)
      requires Ready()
      ensures r == if n < |pc| && PC(n) in Run(log).defs then PcOffset(n) else -2
    {
      hide DefsOk;
      hide Fixed;
      hide Walks;
      if n < |pc| {
        var p := pc[n];
        if p < 0 {
          LabelWord(TheCode(0, []), -p);
          return buf[-p];
        }
        if p > 0 {
          return -1;
        }
      }
      r := -2;
    }

    // Where the last definition of a PC label ended up.
    ghost function PcOffset(n: nat): int
      reads this
    {
      var t := Run(log);
      if PC(n) in t.defs && t.defs[PC(n)] in what && what[t.defs[PC(n)]].LabelAt? then
        var d := what[t.defs[PC(n)]];
        AtOf(at, d.s, d.k)
      else -2
    }
  }

  // Bitwise and with a mask 2^n - 1.
  function And(x: int, mask: nat): int {
    x % (mask + 1)
  }

  lemma EncodingStarts(c: Code)
    requires CodeOk(c)
    ensures AtOf(c.at, 0, 0) == 0 && Image(c, [], 0, 0) && GlobalsAt(c, 0, 0) == c.globals
  {
  }

  lemma EncodingEnds(c: Code)
    requires CodeOk(c)
    ensures AtOf(c.at, |c.steps|, 0) == c.size
  {
  }

  lemma SectionEnds(c: Code, sec: nat)
    requires CodeOk(c) && sec < |c.steps|
    ensures AtOf(c.at, sec + 1, 0) == AtOf(c.at, sec, |c.steps[sec]|)
  {
  }

  // A step without code.
  lemma NothingEmitted(c: Code, out: seq<int>, sec: nat, k: nat)
    requires CodeOk(c) && sec < |c.steps| && k < |c.steps[sec]| && |out| == AtOf(c.at, sec, k)
    requires var x := c.steps[sec][k]; x.Start? || IsDef(x) || Ends(x.act)
    ensures Patches(c, out, out, sec, k) && Emits(c, out, sec, k, k + 1) && AtOf(c.at, sec, k + 1) == |out|
    ensures Image(c, out, sec, k) ==> Image(c, out, sec, k + 1)
  {
    hide CodeOk;
    StepEnds(c, sec, k);
    if Image(c, out, sec, k) {
      ImageMore(c, out, out, sec, k);
    }
  }

  lemma ByteEmitted(c: Code, out: seq<int>, sec: nat, k: nat, out': seq<int>)
    requires CodeOk(c) && sec < |c.steps| && k < |c.steps[sec]| && |out| == AtOf(c.at, sec, k) &&
      IsByte(c.steps[sec][k])
    requires out' == out + [c.steps[sec][k].act.b % 256]
    ensures Patches(c, out, out', sec, k) && Emits(c, out', sec, k, k + 1) && AtOf(c.at, sec, k + 1) == |out'|
  {
    hide CodeOk;
    StepEnds(c, sec, k);
  }

  lemma RelEmits(c: Code, out: seq<int>, sec: nat, k: nat)
    requires sec < |c.steps| && k < |c.steps[sec]| && IsRel(c.steps[sec][k])
    requires 0 <= AtOf(c.at, sec, k) <= AtOf(c.at, sec, k + 1) == |out|
    requires CutAt(c, sec, k) > 0 ==> out != [] && out[|out| - 1] == RefValue(c, sec, k) % 256
    requires CutAt(c, sec, k) == 0 ==> out[AtOf(c.at, sec, k)..] == LE(RefValue(c, sec, k), 4)
    requires CutAt(c, sec, k) >= 0
    ensures Emits(c, out, sec, k, k + 1)
  {
    assert out[AtOf(c.at, sec, k)..|out|] == out[AtOf(c.at, sec, k)..];
  }

  // What the bytes are that a step patches.
  lemma BytesBefore(c: Code, out: seq<int>, sec: nat, k: nat)
    requires CodeOk(c) && sec < |c.steps| && k < |c.steps[sec]| && |out| == AtOf(c.at, sec, k) && Image(c, out, sec, k)
    ensures var n := PatchFrom(c, sec, k);
      && n <= k && n <= |out|
      && (n >= 1 ==> IsByte(c.steps[sec][k - 1]) && out[|out| - 1] == c.steps[sec][k - 1].act.b % 256)
      && (n >= 2 ==> IsByte(c.steps[sec][k - 2]) && out[|out| - 2] == c.steps[sec][k - 2].act.b % 256)
  {
    hide CodeOk;
    PatchedSteps(c, sec, k);
    assert PatchFrom(c, sec, k) >= 1 ==> Emits(c, out, sec, k - 1, k);
    assert PatchFrom(c, sec, k) >= 2 ==> Emits(c, out, sec, k - 2, k);
  }

  lemma LabelWord(c: Code, p: Pos)
    requires CodeOk(c) && p in c.what && c.what[p].LabelAt?
    ensures p in c.buf && c.buf[p] == AtOf(c.at, c.what[p].s, c.what[p].k)
  {
    hide Walks;
    hide Laid;
    hide Decision;
    HomeStep(c.what, c.steps, p);
    assert FixedWord(c.buf[p], p, c.what[p], c.acts, c.steps, c.what, c.t, c.at, |c.steps|, 0);
  }

  lemma LabelKnown(c: Code, sec: nat, k: nat, lg: seq<int>, pc: seq<int>)
    requires CodeOk(c) && LabelsListed(lg, pc, c.what) && sec < |c.steps| && k < |c.steps[sec]| &&
      IsDef(c.steps[sec][k])
    ensures InTable(lg, pc, DefLab(c.steps[sec][k]))
  {
    hide Fixed;
    hide Walks;
    StepWords(c.what, c.steps, sec, k);
  }

  lemma ExternHere(c: Code, sec: nat, k: nat, lg: seq<int>, pc: seq<int>)
    requires CodeOk(c) && DefsOk(c.what, c.t) && Waiting(c.what, c.t) && PendingListed(lg, pc, c.t) &&
      |c.globals| == |lg|
    requires sec < |c.steps| && k < |c.steps[sec]| && IsRef(c.steps[sec][k]) && StepPos(c.steps, sec, k) !in c.t.target
    requires !Stray(c.what, c.t, StepPos(c.steps, sec, k))
    ensures RefLab(c.steps[sec][k]).LG?
    ensures var n := RefLab(c.steps[sec][k]).n; n < |lg| && GlobalsAt(c, sec, k)[n] == Extern(c, sec, k)
  {
    hide Fixed;
    hide Walks;
    hide Laid;
    FinalWords(c, sec, k);
    StepWords(c.what, c.steps, sec, k);
    var l := RefLab(c.steps[sec][k]);
    assert StepPos(c.steps, sec, k) in Pending(c.t, l);
    assert InTable(lg, pc, l);
    ExternUndefined(c, sec, k, sec, k);
  }

  lemma WaitOnceHere(what: Memory, log: seq<Event>, l: Lab)
    requires Labels(what, log)
    ensures NoDuplicates(Pending(Run(log), l))
  {
    WaitOnce(log, l);
  }

  // The chain of a global that is not handled yet is as it was.
  lemma ChainStays(lg: seq<int>, pc: seq<int>, buf: map<Pos, int>, buf': map<Pos, int>, what: Memory, log: seq<Event>,
                   idx: nat)
    requires Linked(lg, pc, buf, what, log) && idx < |lg|
    requires forall p :: p in what ==> p in buf' && MarkedWord(buf'[p], buf[p], p, what[p], Run(log), idx)
    ensures var ps := Pending(Run(log), LG(idx)); ps != [] ==> Chain(buf', lg[idx], ps)
    ensures Pending(Run(log), LG(idx)) == [] ==> lg[idx] <= 0
  {
    var t := Run(log);
    assert InTable(lg, pc, LG(idx)) && EntryOk(Entry(lg, pc, LG(idx)), LG(idx), buf, t);
    EntrySign(lg[idx], LG(idx), buf, what, t);
    forall p | p in Pending(t, LG(idx)) ensures p in buf' && p in buf && buf'[p] == buf[p] {
      assert p in what && what[p] == LinkTo(LG(idx));
    }
  }

  lemma MarkedMore(buf0: map<Pos, int>, before: map<Pos, int>, buf: map<Pos, int>, what: Memory, log: seq<Event>,
                   p: Pos, idx: nat)
    requires Words(buf0, what, Run(log)) && Labels(what, log) && p in what && idx >= 10
    requires p in before && MarkedWord(before[p], buf0[p], p, what[p], Run(log), idx)
    requires p in buf && buf[p] == if p in Pending(Run(log), LG(idx)) then 0 - idx else before[p]
    ensures MarkedWord(buf[p], buf0[p], p, what[p], Run(log), idx + 1)
  {
    hide Run;
    hide Accepted;
    hide DistinctRefs;
    Settled(log, p, LG(idx));
    assert WordOk(buf0[p], p, what[p], Run(log));
  }

  // The words of strays are links.
  lemma StrayWords(lg: seq<int>, pc: seq<int>, buf: map<Pos, int>, what: Memory, log: seq<Event>)
    requires Linked(lg, pc, buf, what, log)
    ensures forall p :: Stray(what, Run(log), p) ==> p in buf && buf[p] == StrayWord(what, Run(log), p)
  {
    hide Run;
    var t := Run(log);
    forall p | Stray(what, t, p) ensures p in buf && buf[p] == StrayWord(what, t, p) {
      var l := what[p].lab;
      var ps := Pending(t, l);
      assert WordOk(buf[p], p, what[p], t);
      assert InTable(lg, pc, l) && EntryOk(Entry(lg, pc, l), l, buf, t);
      WaitOnce(log, l);
      var j :| 0 <= j < |ps| && ps[j] == p;
      ChainAt(buf, Entry(lg, pc, l), ps, j);
      BehindAt(ps, j);
    }
  }

  lemma ChainAt(buf: map<Pos, int>, head: int, ps: seq<Pos>, j: nat)
    requires Chain(buf, head, ps) && j < |ps|
    ensures ps[j] in buf && buf[ps[j]] == if j + 1 < |ps| then ps[j + 1] else 0
  {
  }

  // Where strays lead: to others of them, or to the first word of all.
  lemma StraysHere(acts: seq<int>, steps: seq<seq<Step>>, buf: map<Pos, int>, what: Memory, log: seq<Event>)
    requires Words(buf, what, Run(log)) && Labels(what, log) && Shape(what, steps) && Walks(acts, steps, -1)
    requires |steps| > 0 && (NoLocalWaits(log) || steps[0] != [])
    ensures StraysOk(what, Run(log))
  {
    hide Run;
    var t := Run(log);
    forall p | Stray(what, t, p)
      ensures var w := StrayWord(what, t, p); w in what && (Stray(what, t, w) || what[w].Const?)
    {
      var w, l := StrayWord(what, t, p), what[p].lab;
      assert WordOk(buf[p], p, what[p], t);
      assert p in Pending(t, l);
      if w in Pending(t, l) {
        Settled(log, w, l);
      } else {
        StepWords(what, steps, 0, 0);
      }
    }
  }

  // Once PC labels are defined, references wait only for local labels and globals.
  lemma OnlyGlobalsWait(lg: seq<int>, pc: seq<int>, buf: map<Pos, int>, what: Memory, log: seq<Event>)
    requires Linked(lg, pc, buf, what, log)
    requires forall n: nat :: n < |pc| ==> Pending(Run(log), PC(n)) == []
    ensures forall l, p :: p in Pending(Run(log), l) ==> Local(l) || (l.LG? && 10 <= l.n < |lg|)
  {
    NoneWaitsForZero(log);
  }

  lemma FixedStart(acts: seq<int>, steps: seq<seq<Step>>, what: Memory, log: seq<Event>, buf: map<Pos, int>,
                   buf': map<Pos, int>, lgs: nat)
    requires Words(buf, what, Run(log)) && Shape(what, steps) && Apart(steps) && Walks(acts, steps, -1) &&
      Labels(what, log)
    requires forall p :: p in what ==> p in buf' && MarkedWord(buf'[p], buf[p], p, what[p], Run(log), lgs)
    requires forall l, p :: p in Pending(Run(log), l) ==> Local(l) || (l.LG? && 10 <= l.n < lgs)
    requires forall p :: Stray(what, Run(log), p) ==> p in buf && buf[p] == StrayWord(what, Run(log), p)
    requires StraysOk(what, Run(log))
    ensures Built(acts, steps, what, Run(log)) && FixedTo(buf', acts, steps, what, Run(log), [[0]], 0, 0)
    ensures DefsOk(what, Run(log)) && Waiting(what, Run(log))
    ensures |steps| > 0 ==> Laid([[0]], steps, buf', 0, 0)
  {
    FixedFirst(buf, buf', acts, steps, what, log, lgs);
    forall p | p in what && what[p].LinkTo? && p !in Run(log).target ensures p in Pending(Run(log), what[p].lab) {
      assert WordOk(buf[p], p, what[p], Run(log));
    }
  }

  lemma RoomFor(steps: seq<seq<Step>>, cur: nat, all: seq<Step>, x: Step)
    requires Apart(steps) && cur < |steps| && steps[cur] + [x] <= all && Slot(all, |all|) < SECTION_SPACE - 2
    ensures Apart(Pushed(steps, cur, x))
  {
    PrefixRoom(all, steps[cur] + [x]);
  }

  lemma NoEvents(steps: seq<Step>, base: Pos, i: nat)
    requires i <= |steps|
    ensures Events(steps, base, i, i) == []
  {
  }

  // The walk goes on at this action.
  predicate GoesOn(acts: seq<int>, steps: seq<Step>, a: nat) {
    && steps != []
    && var s := steps[|steps| - 1];
       if s.Start? then a == s.p else !Ends(s.act) && a == s.q + Decode(acts, s.q).1
  }

  // The actions from a on are what is missing from `all`.
  ghost predicate Remains(acts: seq<int>, a: nat, rest: seq<int>, before: seq<Step>, all: seq<Step>) {
    && Complete(acts, a, rest) && before + Program(acts, a, rest) == all && GoesOn(acts, before, a)
    && Slot(all, |all|) < SECTION_SPACE - 2
  }

  lemma StartFits(acts: seq<int>, steps: seq<seq<Step>>, cur: nat, start: nat, args: seq<int>, all: seq<Step>)
    requires cur < |steps| && Finished(steps[cur]) && Apart(steps)
    requires all == steps[cur] + ([Start(start)] + Program(acts, start, args))
    requires Complete(acts, start, args) && Slot(all, |all|) < SECTION_SPACE - 2
    ensures steps[cur] != [] ==> Ends(steps[cur][|steps[cur]| - 1].act) && steps[cur][|steps[cur]| - 1].Act?
    ensures Apart(Pushed(steps, cur, Start(start)))
    ensures Remains(acts, start, args, steps[cur] + [Start(start)], all)
  {
    assert all == (steps[cur] + [Start(start)]) + Program(acts, start, args);
    RoomFor(steps, cur, all, Start(start));
  }

  lemma Remaining(acts: seq<int>, a: nat, rest: seq<int>, before: seq<Step>, all: seq<Step>)
    requires Remains(acts, a, rest, before, all)
    ensures Slot(all, |all|) < SECTION_SPACE - 2
    ensures var (act, len) := Decode(acts, a);
      && !act.Other? && (TakesArg(act) ==> rest != [] && (act.Space? ==> rest[0] >= 0)) && before != []
      && var x := Act(a, act, if TakesArg(act) then rest[0] else 0);
      && before + [x] <= all && Decoded(acts, x) && Succeeds(acts, before[|before| - 1], x)
      && (if Ends(act) then before + [x] == all && Finished(before + [x])
          else Remains(acts, a + len, if TakesArg(act) then rest[1..] else rest, before + [x], all))
  {
    var (act, len) := Decode(acts, a);
    var x := Act(a, act, if TakesArg(act) then rest[0] else 0);
    if !Ends(act) {
      var more := Program(acts, a + len, if TakesArg(act) then rest[1..] else rest);
      assert before + ([x] + more) == (before + [x]) + more;
    }
  }

  lemma PatchableWhole(acts: seq<int>, before: seq<Step>, more: seq<Step>, all: seq<Step>)
    requires Patchable(acts, before) && Patchable(acts, more) && all == before + more
    ensures Patchable(acts, all)
  {
    PatchableMore(acts, before, more);
  }

  lemma EntrySignOf(lg: seq<int>, pc: seq<int>, buf: map<Pos, int>, what: Memory, log: seq<Event>, l: Lab)
    requires Linked(lg, pc, buf, what, log) && InTable(lg, pc, l)
    ensures Entry(lg, pc, l) > 0 <==> Pending(Run(log), l) != []
  {
    EntrySign(Entry(lg, pc, l), l, buf, what, Run(log));
  }

  lemma KnownEntry(lg: seq<int>, pc: seq<int>, buf: map<Pos, int>, what: Memory, log: seq<Event>, l: Lab)
    requires Linked(lg, pc, buf, what, log) && InTable(lg, pc, l)
    ensures Entry(lg, pc, l) < 0 <==> Known(Run(log), l)
  {
    EntrySign(Entry(lg, pc, l), l, buf, what, Run(log));
  }

  lemma EventsOfPrefix(all: seq<Step>, before: seq<Step>, base: Pos, n0: nat)
    requires before <= all
    ensures Events(all, base, n0, |before|) == Events(before, base, n0, |before|)
  {
    assert all == before + all[|before|..];
    EventsPrefix(before, all[|before|..], base, n0, |before|);
  }

  lemma NoContents(x: Step, p: Pos, est: nat, s: nat, k: nat)
    requires Slots(x) == 0
    ensures Contents(x, p, est, s, k) == map[]
  {
  }

  lemma FirstIsStart(acts: seq<int>, steps: seq<seq<Step>>, s: nat)
    requires s < |steps| && Walks(acts, steps, s) && steps[s] != []
    ensures steps[s][0].Start?
  {
  }
}