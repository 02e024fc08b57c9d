/** What the section buffers hold after the first pass. */
module DasmMemory {
  import opened DasmActions
  import opened DasmLabels

  const SECTION_SPACE := 0x100_0000

  // DASM_SEC2POS.
  function SecBase(s: nat): Pos {
    s * SECTION_SPACE
  }

  function SecOf(p: Pos): int {
    p / SECTION_SPACE
  }

  // What a buffer position is for: a value that stays as it is; the offset of a label, step k of
  // section s; a reference to a label; or the estimated end of a branch, step k of section s.
  datatype Content = Const(v: int) | LabelAt(s: nat, k: nat, est: nat, lab: Lab) | LinkTo(lab: Lab) | EndAt(s: nat,
    k: nat, est: nat)

  type Memory = map<Pos, Content>

  // The label of a reference, and whether it asks for a definition still to come.
  function RefLab(s: Step): Lab
    requires IsRef(s)
  {
    match s.act
    case RelPC => PC(if s.n < 0 then 0 else s.n)
    case ImmPC => PC(if s.n < 0 then 0 else s.n)
    case RelLG(n) => if n <= 246 then LG(n) else LG(n - 246)
    case ImmLG(n) => if n <= 246 then LG(n) else LG(n - 246)
  }

  predicate IsFwd(s: Step)
    requires IsRef(s)
  {
    (s.act.RelLG? && s.act.n > 246) || (s.act.ImmLG? && s.act.n > 246)
  }

  function DefLab(s: Step): Lab
    requires IsDef(s)
  {
    if s.act.LabelLG? then LG(s.act.n) else PC(if s.n < 0 then 0 else s.n)
  }

  // What a step puts at pos; est is the estimate before it.
  function Contents(x: Step, pos: Pos, est: nat, s: nat, k: nat): Memory {
    if x.Start? then map[pos := Const(x.p)]
    else if IsRel(x) then map[pos := LinkTo(RefLab(x)), pos + 1 := EndAt(s, k, est + 4)]
    else if IsImmRef(x) then map[pos := LinkTo(RefLab(x))]
    else if IsDef(x) then map[pos := LabelAt(s, k, est, DefLab(x))]
    else match x.act
      case Value(_) => map[pos := Const(x.n)]
      case Space(_) => map[pos := Const(x.n)]
      case Align(mask) => map[pos := Const(est + mask)]
      case _ => map[]
  }

  function StepPos(steps: seq<seq<Step>>, s: nat, k: nat): Pos
    requires s < |steps| && k <= |steps[s]|
  {
    SecBase(s) + Slot(steps[s], k)
  }

  function StepContents(steps: seq<seq<Step>>, s: nat, k: nat): Memory
    requires s < |steps| && k < |steps[s]|
  {
    Contents(steps[s][k], StepPos(steps, s, k), Est(steps[s], k), s, k)
  }

  ghost predicate Placed(what: Memory, steps: seq<seq<Step>>, s: nat, k: nat)
    requires s < |steps| && k < |steps[s]|
  {
    forall p :: p in StepContents(steps, s, k) ==> p in what && what[p] == StepContents(steps, s, k)[p]
  }

  // The buffers hold what the steps put there, and nothing else.
  ghost predicate Shape(what: Memory, steps: seq<seq<Step>>) {
    && (forall s, k {:trigger Placed(what, steps, s, k)} :: 0 <= s < |steps| && 0 <= k < |steps[s]| ==>
      Placed(what, steps, s, k))
    && (forall p :: p in what ==> Used(p, steps) && HomeOk(p, what[p], steps))
  }

  // The position lies in the part of its section that is in use.
  predicate Used(p: Pos, steps: seq<seq<Step>>) {
    && p >= 0 && SecOf(p) < |steps|
    && p < SecBase(SecOf(p)) + Slot(steps[SecOf(p)], |steps[SecOf(p)]|)
  }

  ghost predicate HomeOk(p: Pos, c: Content, steps: seq<seq<Step>>) {
    && (c.LabelAt? ==>
          && c.s < |steps| && c.k < |steps[c.s]| && IsDef(steps[c.s][c.k]) && p == StepPos(steps, c.s, c.k)
          && c.est == Est(steps[c.s], c.k) && c.lab == DefLab(steps[c.s][c.k]))
    && (c.EndAt? ==>
          && c.s < |steps| && c.k < |steps[c.s]| && IsRel(steps[c.s][c.k]) && p == StepPos(steps, c.s, c.k) + 1
          && c.est == Est(steps[c.s], c.k) + 4)
    && (!c.Const? ==> p > 0)
  }

  // Sections do not run into each other.
  ghost predicate Apart(steps: seq<seq<Step>>) {
    forall s :: 0 <= s < |steps| ==> Slot(steps[s], |steps[s]|) < SECTION_SPACE - 2
  }

  function Grown(what: Memory, steps: seq<seq<Step>>, cur: nat, x: Step): Memory
    requires cur < |steps|
  {
    what + Contents(x, StepPos(steps, cur, |steps[cur]|), Est(steps[cur], |steps[cur]|), cur, |steps[cur]|)
  }

  function Pushed(steps: seq<seq<Step>>, cur: nat, x: Step): seq<seq<Step>>
    requires cur < |steps|
  {
    steps[cur := steps[cur] + [x]]
  }

  lemma PosInSection(s: nat, i: nat)
    requires i < SECTION_SPACE
    ensures SecOf(SecBase(s) + i) == s
  {
  }

  // A new step takes positions not used before.
  lemma FreshPos(what: Memory, steps: seq<seq<Step>>, cur: nat, x: Step, p: Pos)
    requires Shape(what, steps) && Apart(steps) && cur < |steps|
    requires p in Contents(x, StepPos(steps, cur, |steps[cur]|), Est(steps[cur], |steps[cur]|), cur, |steps[cur]|)
    ensures p !in what && StepPos(steps, cur, |steps[cur]|) <= p < StepPos(steps, cur, |steps[cur]|) + Slots(x) &&
      SecOf(p) == cur
  {
    var i := Slot(steps[cur], |steps[cur]|);
    assert p == SecBase(cur) + i || p == SecBase(cur) + (i + 1);
    PosInSection(cur, i);
    PosInSection(cur, i + 1);
    assert p in what ==> Used(p, steps);
  }

  // A label step is put down only behind the start of its dasm_put, so its position is not 0.
  lemma ShapeMore(what: Memory, steps: seq<seq<Step>>, cur: nat, x: Step)
    requires Shape(what, steps) && Apart(steps) && cur < |steps|
    requires IsRef(x) || IsDef(x) ==> StepPos(steps, cur, |steps[cur]|) > 0
    ensures Shape(Grown(what, steps, cur, x), Pushed(steps, cur, x))
  {
    var what', steps', n := Grown(what, steps, cur, x), Pushed(steps, cur, x), |steps[cur]|;
    SumsGrow(steps[cur], x);
    forall k | 0 <= k <= n
      ensures Est(steps'[cur], k) == Est(steps[cur], k) && Slot(steps'[cur], k) == Slot(steps[cur], k)
    {
      PrefixSums(steps[cur], [x], k);
    }
    forall s, k | 0 <= s < |steps'| && 0 <= k < |steps'[s]| ensures Placed(what', steps', s, k) {
      if s != cur || k < n {
        assert Placed(what, steps, s, k);
        assert StepContents(steps', s, k) == StepContents(steps, s, k);
        forall p | p in StepContents(steps', s, k) ensures p in what' && what'[p] == StepContents(steps', s, k)[p] {
          if p in Contents(x, StepPos(steps, cur, n), Est(steps[cur], n), cur, n) {
            FreshPos(what, steps, cur, x, p);
          }
        }
      }
    }
    forall p | p in what' ensures Used(p, steps') && HomeOk(p, what'[p], steps') {
      if p in Contents(x, StepPos(steps, cur, n), Est(steps[cur], n), cur, n) {
        FreshPos(what, steps, cur, x, p);
      } else {
        assert Used(p, steps) && HomeOk(p, what[p], steps);
      }
    }
  }

  // ------------------------------------------------------------------ the words themselves

  // Each word has the value it is for; a reference that waits is part of its label's chain.
  ghost predicate Words(buf: map<Pos, int>, what: Memory, t: Table) {
    && (forall p :: p in what ==> p in buf && WordOk(buf[p], p, what[p], t))
    && (forall l, p :: p in Pending(t, l) ==> p in what && what[p] == LinkTo(l))
    && (forall l :: l in t.defs ==> t.defs[l] in what && what[t.defs[l]].LabelAt? && what[t.defs[l]].lab == l)
  }

  ghost predicate WordOk(w: int, p: Pos, c: Content, t: Table) {
    match c
    case Const(v) => w == v
    case LabelAt(_, _, est, _) => w == est
    case EndAt(_, _, est) => w == est
    case LinkTo(l) => if p in t.target then w == t.target[p] else p in Pending(t, l)
  }

  predicate IsLabel(what: Memory, p: Pos, l: Lab) {
    p in what && what[p].LabelAt? && what[p].lab == l
  }

  ghost predicate TargetsOk(what: Memory, t: Table) {
    forall p :: p in t.target ==> p in what && what[p].LinkTo? && IsLabel(what, t.target[p], what[p].lab)
  }

  // The references that wait for a label, most recent first, each holding the position of the one before.
  ghost predicate Chain(buf: map<Pos, int>, head: int, ps: seq<Pos>) {
    && ps != [] && head == ps[0]
    && (forall j :: 0 <= j < |ps| ==> ps[j] in buf && ps[j] > 0 && buf[ps[j]] == if j + 1 < |ps| then ps[j + 1] else 0)
  }

  // The entry of a label: the chain of the references that wait for it, or its position, negated.
  ghost predicate EntryOk(v: int, l: Lab, buf: map<Pos, int>, t: Table) {
    if Pending(t, l) != [] then Chain(buf, v, Pending(t, l))
    else if l in t.defs then v == -t.defs[l]
    else v == 0
  }

  // References and labels are never at position 0.
  ghost predicate Positive(what: Memory) {
    forall p :: p in what && !what[p].Const? ==> p > 0
  }

  lemma EntrySign(v: int, l: Lab, buf: map<Pos, int>, what: Memory, t: Table)
    requires EntryOk(v, l, buf, t) && Words(buf, what, t) && Positive(what)
    ensures v < 0 <==> Known(t, l)
    ensures v > 0 <==> Pending(t, l) != []
  {
  }

  function WordFor(c: Content): int
    requires !c.LinkTo?
  {
    if c.Const? then c.v else c.est
  }

  // A word that no reference, and no earlier step, uses.
  lemma WordsMore(buf: map<Pos, int>, what: Memory, t: Table, p: Pos, c: Content, v: int)
    requires Words(buf, what, t) && p !in what && !c.LinkTo? && v == WordFor(c)
    ensures Words(buf[p := v], what[p := c], t)
  {
  }

  lemma EntriesElsewhere(v: int, l: Lab, buf: map<Pos, int>, buf': map<Pos, int>, t: Table)
    requires EntryOk(v, l, buf, t) && forall p :: p in Pending(t, l) ==> p in buf' && p in buf && buf'[p] == buf[p]
    ensures EntryOk(v, l, buf', t)
  {
  }

  // A reference to a known label holds its position.
  lemma WordsRefKnown(buf: map<Pos, int>, what: Memory, t: Table, p: Pos, l: Lab)
    requires Words(buf, what, t) && p !in what && Known(t, l)
    ensures Words(buf[p := t.defs[l]], what[p := LinkTo(l)], Apply(t, Ref(p, l, false)))
  {
    var buf', what', t' := buf[p := t.defs[l]], what[p := LinkTo(l)], Apply(t, Ref(p, l, false));
    forall q | q in what' ensures q in buf' && WordOk(buf'[q], q, what'[q], t') {
      assert q != p ==> WordOk(buf[q], q, what[q], t);
    }
    forall m, q | q in Pending(t', m) ensures q in what' && what'[q] == LinkTo(m) {
      assert q in Pending(t, m);
    }
  }

  // Any other reference is linked to the chain.
  lemma WordsRefWaits(buf: map<Pos, int>, what: Memory, t: Table, p: Pos, l: Lab, fwd: bool, v: int)
    requires Words(buf, what, t) && p !in what && (fwd || !Known(t, l)) && p !in t.target
    ensures Words(buf[p := v], what[p := LinkTo(l)], Apply(t, Ref(p, l, fwd)))
  {
    var buf', what', t' := buf[p := v], what[p := LinkTo(l)], Apply(t, Ref(p, l, fwd));
    assert forall m :: Pending(t', m) == if m == l then [p] + Pending(t, l) else Pending(t, m);
    forall q | q in what' ensures q in buf' && WordOk(buf'[q], q, what'[q], t') {
      assert q != p ==> WordOk(buf[q], q, what[q], t);
    }
    forall m, q | q in Pending(t', m) ensures q in what' && what'[q] == LinkTo(m) {
      assert q == p || q in Pending(t, m);
    }
  }

  // All references that wait for a label got its position.
  lemma WordsDef(buf: map<Pos, int>, what: Memory, t: Table, p: Pos, l: Lab, buf': map<Pos, int>, c: Content)
    requires Words(buf, what, t) && p !in what && c.LabelAt? && c.lab == l
    requires forall q :: q in what ==> q in buf' && buf'[q] == if q in Pending(t, l) then p else buf[q]
    requires p in buf' && buf'[p] == c.est
    ensures Words(buf', what[p := c], Apply(t, Def(p, l)))
  {
    var what', t' := what[p := c], Apply(t, Def(p, l));
    assert forall m :: Pending(t', m) == if m == l then [] else Pending(t, m);
    forall q | q in what' ensures q in buf' && WordOk(buf'[q], q, what'[q], t') {
      assert q != p ==> WordOk(buf[q], q, what[q], t);
    }
    forall m, q | q in Pending(t', m) ensures q in what' && what'[q] == LinkTo(m) {
      assert q in Pending(t, m);
    }
  }

  // ------------------------------------------------------------------- the label tables

  predicate InTable(lg: seq<int>, pc: seq<int>, l: Lab) {
    match l
    case LG(n) => n < |lg|
    case PC(n) => n < |pc|
  }

  function Entry(lg: seq<int>, pc: seq<int>, l: Lab): int
    requires InTable(lg, pc, l)
  {
    match l
    case LG(n) => lg[n]
    case PC(n) => pc[n]
  }

  // One entry is v, the others are as they were.
  ghost predicate EntrySet(lg: seq<int>, pc: seq<int>, lg': seq<int>, pc': seq<int>, l: Lab, v: int)
    requires InTable(lg, pc, l)
  {
    && |lg'| == |lg| && |pc'| == |pc| && Entry(lg', pc', l) == v
    && forall m :: m != l && InTable(lg, pc, m) ==> Entry(lg', pc', m) == Entry(lg, pc, m)
  }

  // References in the log have a word of their own.
  ghost predicate Logged(log: seq<Event>, what: Memory) {
    forall i :: 0 <= i < |log| && log[i].Ref? ==> log[i].pos in what
  }

  ghost predicate Entries(lg: seq<int>, pc: seq<int>, buf: map<Pos, int>, t: Table) {
    && (forall l :: InTable(lg, pc, l) ==> EntryOk(Entry(lg, pc, l), l, buf, t))
    && PendingListed(lg, pc, t)
  }

  ghost predicate PendingListed(lg: seq<int>, pc: seq<int>, t: Table) {
    forall l :: Pending(t, l) != [] ==> InTable(lg, pc, l)
  }

  // PC labels, when none is waited for.
  ghost predicate PcDefined(pc: seq<int>, what: Memory, t: Table) {
    forall n: nat :: n < |pc| ==>
      if PC(n) in t.defs then pc[n] == 0 - t.defs[PC(n)] < 0 && t.defs[PC(n)] in what && what[t.defs[PC(n)]].LabelAt?
        else pc[n] == 0
  }

  lemma PcReady(lg: seq<int>, pc: seq<int>, buf: map<Pos, int>, what: Memory, log: seq<Event>)
    requires Linked(lg, pc, buf, what, log) && forall n: nat :: n < |pc| ==> Pending(Run(log), PC(n)) == []
    ensures PcDefined(pc, what, Run(log)) && PendingListed(lg, pc, Run(log)) && LabelsListed(lg, pc, what)
  {
    hide Run;
    forall n: nat | n < |pc| ensures
      if PC(n) in Run(log).defs
        then pc[n] == 0 - Run(log).defs[PC(n)] < 0 && Run(log).defs[PC(n)] in what &&
          what[Run(log).defs[PC(n)]].LabelAt?
      else pc[n] == 0
    {
      assert InTable(lg, pc, PC(n)) && EntryOk(Entry(lg, pc, PC(n)), PC(n), buf, Run(log));
    }
  }

  // Only a local label can be referenced again before its next definition.
  ghost predicate DefsOk(what: Memory, t: Table) {
    && (forall p :: p in what && what[p].LabelAt? && !Local(what[p].lab) ==> what[p].lab in t.defs)
    && (forall l :: Pending(t, l) != [] && !Local(l) ==> l !in t.defs)
  }

  ghost predicate Labels(what: Memory, log: seq<Event>) {
    TargetsOk(what, Run(log)) && DefsOk(what, Run(log)) && Positive(what) && DistinctRefs(log) && Logged(log, what) &&
      Accepted(log)
  }

  // The buffers and the label tables say what is in the log.
  ghost predicate Linked(lg: seq<int>, pc: seq<int>, buf: map<Pos, int>, what: Memory, log: seq<Event>) {
    Words(buf, what, Run(log)) && Labels(what, log) && Entries(lg, pc, buf, Run(log)) && LabelsListed(lg, pc, what)
  }

  ghost predicate LabelsListed(lg: seq<int>, pc: seq<int>, what: Memory) {
    forall p :: p in what && what[p].LabelAt? ==> InTable(lg, pc, what[p].lab)
  }

  lemma LinkedWord(lg: seq<int>, pc: seq<int>, buf: map<Pos, int>, what: Memory, log: seq<Event>, p: Pos, c: Content)
    requires Linked(lg, pc, buf, what, log) && p !in what && (c.Const? || (c.EndAt? && p > 0))
    ensures Linked(lg, pc, buf[p := WordFor(c)], what[p := c], log)
  {
    var t, v := Run(log), WordFor(c);
    WordsMore(buf, what, t, p, c, v);
    forall l | InTable(lg, pc, l) ensures EntryOk(Entry(lg, pc, l), l, buf[p := v], t) {
      EntriesElsewhere(Entry(lg, pc, l), l, buf, buf[p := v], t);
    }
  }

  lemma LabelsRef(what: Memory, log: seq<Event>, p: Pos, l: Lab, fwd: bool)
    requires Labels(what, log) && p !in what && p > 0
    requires !fwd && Known(Run(log), l) ==> IsLabel(what, Run(log).defs[l], l)
    requires Admissible(Run(log), l, fwd)
    ensures Labels(what[p := LinkTo(l)], log + [Ref(p, l, fwd)])
  {
    hide Accepted;
    hide DistinctRefs;
    hide Run;
    AcceptedMore(log, Ref(p, l, fwd));
    RunMore(log, Ref(p, l, fwd));
    DistinctRef(what, log, p, l, fwd);
  }

  lemma DistinctRef(what: Memory, log: seq<Event>, p: Pos, l: Lab, fwd: bool)
    requires DistinctRefs(log) && Logged(log, what) && p !in what
    ensures DistinctRefs(log + [Ref(p, l, fwd)])
  {
  }

  // A reference to a known label.
  lemma LinkedKnown(lg: seq<int>, pc: seq<int>, buf: map<Pos, int>, what: Memory, log: seq<Event>, p: Pos, l: Lab)
    requires Linked(lg, pc, buf, what, log) && p !in what && p > 0 && InTable(lg, pc, l) && Entry(lg, pc, l) < 0
    ensures Linked(lg, pc, buf[p := -Entry(lg, pc, l)], what[p := LinkTo(l)], log + [Ref(p, l, false)])
  {
    hide TargetsOk;
    hide DefsOk;
    hide Accepted;
    hide DistinctRefs;
    hide Logged;
    hide Run;
    hide WordOk;
    var t, e, v := Run(log), Ref(p, l, false), Entry(lg, pc, l);
    RunMore(log, e);
    EntrySign(v, l, buf, what, t);
    WordsRefKnown(buf, what, t, p, l);
    LabelsRef(what, log, p, l, false);
    forall m | InTable(lg, pc, m) ensures EntryOk(Entry(lg, pc, m), m, buf[p := -v], Apply(t, e)) {
      EntriesElsewhere(Entry(lg, pc, m), m, buf, buf[p := -v], t);
    }
  }

  // A reference that waits for a definition.
  lemma LinkedWaits(lg: seq<int>, pc: seq<int>, buf: map<Pos, int>, what: Memory, log: seq<Event>, p: Pos, l: Lab,
                    fwd: bool, n: int, lg': seq<int>, pc': seq<int>)
    requires Linked(lg, pc, buf, what, log) && p !in what && p > 0 && InTable(lg, pc, l)
    requires n == (if Entry(lg, pc, l) < 0 then 0 else Entry(lg, pc, l)) && (fwd || Entry(lg, pc, l) >= 0)
    requires if fwd then Local(l) else !MustBeKnown(l)
    requires EntrySet(lg, pc, lg', pc', l, p)
    ensures Linked(lg', pc', buf[p := n], what[p := LinkTo(l)], log + [Ref(p, l, fwd)])
  {
    hide DefsOk;
    hide Accepted;
    hide DistinctRefs;
    hide Logged;
    hide Run;
    hide WordOk;
    var t, e, v := Run(log), Ref(p, l, fwd), Entry(lg, pc, l);
    RunMore(log, e);
    EntrySign(v, l, buf, what, t);
    WordsRefWaits(buf, what, t, p, l, fwd, n);
    LabelsRef(what, log, p, l, fwd);
    forall m | InTable(lg', pc', m) ensures EntryOk(Entry(lg', pc', m), m, buf[p := n], Apply(t, e)) {
      if m == l {
        ChainMore(v, n, l, buf, what, t, p, fwd);
      } else {
        EntriesElsewhere(Entry(lg, pc, m), m, buf, buf[p := n], t);
        assert Pending(Apply(t, e), m) == Pending(t, m);
      }
    }
    forall m | Pending(Apply(t, e), m) != [] ensures InTable(lg', pc', m) {
      assert m == l || Pending(t, m) != [];
    }
  }

  lemma ChainMore(v: int, n: int, l: Lab, buf: map<Pos, int>, what: Memory, t: Table, p: Pos, fwd: bool)
    requires EntryOk(v, l, buf, t) && Words(buf, what, t) && p > 0 && p !in what && (fwd || !Known(t, l))
    requires n == if v < 0 then 0 else v
    requires v < 0 <==> Known(t, l)
    ensures EntryOk(p, l, buf[p := n], Apply(t, Ref(p, l, fwd)))
  {
    var ps := Pending(t, l);
    assert p !in ps;
  }

  lemma LabelsDef(buf: map<Pos, int>, what: Memory, log: seq<Event>, p: Pos, l: Lab, c: Content)
    requires Words(buf, what, Run(log)) && Labels(what, log) && p !in what && p > 0 && c.LabelAt? && c.lab == l
    ensures Labels(what[p := c], log + [Def(p, l)])
  {
    hide Run;
    hide Accepted;
    hide DistinctRefs;
    AcceptedMore(log, Def(p, l));
    DistinctMore(log, Def(p, l));
    RunMore(log, Def(p, l));
    TargetsDef(buf, what, Run(log), p, l, c);
  }

  lemma DistinctMore(log: seq<Event>, e: Event)
    requires DistinctRefs(log) && !e.Ref?
    ensures DistinctRefs(log + [e])
  {
  }

  lemma TargetsDef(buf: map<Pos, int>, what: Memory, t: Table, p: Pos, l: Lab, c: Content)
    requires Words(buf, what, t) && TargetsOk(what, t) && p !in what && c.LabelAt? && c.lab == l
    ensures TargetsOk(what[p := c], Apply(t, Def(p, l)))
  {
    var what', t' := what[p := c], Apply(t, Def(p, l));
    forall q | q in t'.target ensures q in what' && what'[q].LinkTo? && IsLabel(what', t'.target[q], what'[q].lab) {
      assert q in Pending(t, l) || q in t.target;
    }
  }

  // A definition: every reference that waits for it holds its position.
  lemma LinkedDef(lg: seq<int>, pc: seq<int>, buf: map<Pos, int>, what: Memory, log: seq<Event>, p: Pos, l: Lab,
                  c: Content, lg': seq<int>, pc': seq<int>, buf': map<Pos, int>)
    requires Linked(lg, pc, buf, what, log) && p !in what && p > 0 && InTable(lg, pc, l) && c.LabelAt? && c.lab == l
    requires EntrySet(lg, pc, lg', pc', l, -p)
    requires forall q :: q in what ==> q in buf' && buf'[q] == if q in Pending(Run(log), l) then p else buf[q]
    requires p in buf' && buf'[p] == c.est
    ensures Linked(lg', pc', buf', what[p := c], log + [Def(p, l)])
  {
    hide Words;
    hide Labels;
    hide EntryOk;
    hide Run;
    hide WordOk;
    var t, e := Run(log), Def(p, l);
    RunMore(log, e);
    WordsDef(buf, what, t, p, l, buf', c);
    LabelsDef(buf, what, log, p, l, c);
    forall m | InTable(lg', pc', m) ensures EntryOk(Entry(lg', pc', m), m, buf', Apply(t, e)) {
      if m != l {
        OtherChain(Entry(lg, pc, m), m, l, buf, what, t, buf', p);
      } else {
        DefinedEntry(t, l, p, buf');
      }
    }
    forall m | Pending(Apply(t, e), m) != [] ensures InTable(lg', pc', m) {
      assert Pending(t, m) != [];
    }
  }

  lemma DefinedEntry(t: Table, l: Lab, p: Pos, buf: map<Pos, int>)
    ensures EntryOk(-p, l, buf, Apply(t, Def(p, l)))
  {
  }

  lemma ChainElsewhere(buf: map<Pos, int>, buf': map<Pos, int>, head: int, ps: seq<Pos>)
    requires Chain(buf, head, ps) && forall q :: q in ps ==> q in buf && q in buf' && buf'[q] == buf[q]
    ensures Chain(buf', head, ps)
  {
    forall j | 0 <= j < |ps| ensures ps[j] in buf' && buf'[ps[j]] == buf[ps[j]] {
      assert ps[j] in ps;
    }
  }

  lemma OtherChain(v: int, m: Lab, l: Lab, buf: map<Pos, int>, what: Memory, t: Table, buf': map<Pos, int>, p: Pos)
    requires EntryOk(v, m, buf, t) && Words(buf, what, t) && m != l && p !in what
    requires forall q :: q in what ==> q in buf' && buf'[q] == if q in Pending(t, l) then p else buf[q]
    ensures EntryOk(v, m, buf', Apply(t, Def(p, l)))
  {
    hide WordOk;
    var ps := Pending(t, m);
    assert Pending(Apply(t, Def(p, l)), m) == ps;
    forall q | q in ps ensures q in buf && q in buf' && buf'[q] == buf[q] {
      assert what[q] == LinkTo(m);
      assert q !in Pending(t, l);
    }
    if ps != [] {
      ChainElsewhere(buf, buf', v, ps);
    }
  }

  // The local labels are cleared, while no reference waits for one.
  lemma LinkedForget(lg: seq<int>, pc: seq<int>, buf: map<Pos, int>, what: Memory, log: seq<Event>, lg': seq<int>)
    requires Linked(lg, pc, buf, what, log) && |lg'| == |lg| >= 10
    requires forall n :: 0 <= n < |lg| ==> lg'[n] == if 1 <= n < 10 then 0 else lg[n]
    requires forall n :: 1 <= n < 10 ==> lg[n] <= 0
    ensures Linked(lg', pc, buf, what, log + [Forget])
    ensures forall n: nat :: 1 <= n < 10 ==> Pending(Run(log + [Forget]), LG(n)) == []
  {
    var t := Run(log);
    RunMore(log, Forget);
    AcceptedMore(log, Forget);
    DistinctMore(log, Forget);
    var t' := Apply(t, Forget);
    forall n: nat | 1 <= n < 10 ensures Pending(t', LG(n)) == [] {
      assert InTable(lg, pc, LG(n)) && Entry(lg, pc, LG(n)) <= 0;
      EntrySign(Entry(lg, pc, LG(n)), LG(n), buf, what, t);
    }
    forall l | InTable(lg', pc, l) ensures EntryOk(Entry(lg', pc, l), l, buf, t') {
      assert Local(l) || Entry(lg', pc, l) == Entry(lg, pc, l);
    }
    WordsForget(buf, what, t);
  }

  lemma WordsForget(buf: map<Pos, int>, what: Memory, t: Table)
    requires Words(buf, what, t)
    ensures Words(buf, what, Apply(t, Forget))
  {
    var t' := Apply(t, Forget);
    forall p | p in what ensures p in buf && WordOk(buf[p], p, what[p], t') {
      assert WordOk(buf[p], p, what[p], t);
    }
    forall l, p | p in Pending(t', l) ensures p in what && what[p] == LinkTo(l) {
      assert p in Pending(t, l);
    }
  }

  // What the words at references are: the theorem about the chains.
  lemma ReferenceHolds(lg: seq<int>, pc: seq<int>, buf: map<Pos, int>, what: Memory, log: seq<Event>, i: nat)
    requires Linked(lg, pc, buf, what, log) && i < |log| && log[i].Ref?
    ensures log[i].pos in buf
    ensures var e, w := log[i], buf[log[i].pos];
      if !e.fwd && Known(Run(log[..i]), e.lab) then LastDef(log, i, e.lab) >= 0 && w == log[LastDef(log, i, e.lab)].pos
      else if NextDef(log, i, e.lab) < |log| then w == log[NextDef(log, i, e.lab)].pos
      else e.pos in Pending(Run(log), e.lab)
    ensures !log[i].fwd && MustBeKnown(log[i].lab) ==> Known(Run(log[..i]), log[i].lab)
  {
    var t, p := Run(log), log[i].pos;
    RefersTo(log, i);
    assert p in what && WordOk(buf[p], p, what[p], t);
    assert p in t.target ==> what[p].LinkTo?;
  }

  // ------------------------------------------------------------------------ sections

  // The fields of each section but `cur`.
  ghost predicate Closed(pos: seq<Pos>, ofs: seq<int>, steps: seq<seq<Step>>, cur: int) {
    && |pos| == |ofs| == |steps|
    && forall s :: 0 <= s < |steps| && s != cur ==>
      pos[s] == StepPos(steps, s, |steps[s]|) && ofs[s] == Est(steps[s], |steps[s]|)
  }

  ghost predicate Walks(acts: seq<int>, steps: seq<seq<Step>>, cur: int) {
    && (forall s :: 0 <= s < |steps| ==> Walk(acts, steps[s]))
    && (forall s :: 0 <= s < |steps| && s != cur ==> Finished(steps[s]) && Patchable(acts, steps[s]))
  }

  lemma WalksMore(acts: seq<int>, steps: seq<seq<Step>>, cur: nat, x: Step)
    requires Walks(acts, steps, cur) && cur < |steps| && Decoded(acts, x)
    requires if steps[cur] == [] then x.Start? else Succeeds(acts, steps[cur][|steps[cur]| - 1], x)
    ensures Walks(acts, Pushed(steps, cur, x), cur)
  {
    WalkMore(acts, steps[cur], x);
  }

  lemma BehindStart(steps: seq<seq<Step>>, s: nat)
    requires s < |steps| && steps[s] != [] && steps[s][0].Start?
    ensures StepPos(steps, s, |steps[s]|) > 0
  {
    SlotsAscend(steps[s], 0, |steps[s]|);
  }

  // ------------------------------------------------------------------------ events

  // What a step at position p means for the labels.
  function EventAt(x: Step, p: Pos): seq<Event> {
    if IsRef(x) then [Ref(p, RefLab(x), IsFwd(x))]
    else if IsDef(x) then [Def(p, DefLab(x))]
    else []
  }

  // The events of steps i to j of a section.
  function Events(steps: seq<Step>, base: Pos, i: nat, j: nat): seq<Event>
    requires j <= |steps|
  {
    if j <= i then [] else Events(steps, base, i, j - 1) + EventAt(steps[j - 1], base + Slot(steps, j - 1))
  }

  lemma {:induction false} EventsPrefix(steps: seq<Step>, more: seq<Step>, base: Pos, i: nat, j: nat)
    requires j <= |steps|
    ensures Events(steps + more, base, i, j) == Events(steps, base, i, j)
  {
    if i < j {
      EventsPrefix(steps, more, base, i, j - 1);
      PrefixSums(steps, more, j - 1);
    }
  }

  lemma EventsGrow(steps: seq<Step>, x: Step, base: Pos, i: nat)
    requires i <= |steps|
    ensures Events(steps + [x], base, i, |steps| + 1) ==
      Events(steps, base, i, |steps|) + EventAt(x, base + Slot(steps, |steps|))
  {
    EventsPrefix(steps, [x], base, i, |steps|);
    PrefixSums(steps, [x], |steps|);
  }

  // A part of a section needs no more room than the whole.
  lemma PrefixRoom(all: seq<Step>, steps: seq<Step>)
    requires steps <= all
    ensures Slot(steps, |steps|) <= Slot(all, |all|)
  {
    assert all == steps + all[|steps|..];
    PrefixSums(steps, all[|steps|..], |steps|);
    if |steps| < |all| {
      SlotsAscend(all, |steps|, |all|);
    }
  }
}
