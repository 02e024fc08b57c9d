/**
 The head of a side trace: the registers that carry values over from the parent trace are moved to
 the registers the side trace wants them in. Machine code is generated backwards, so every new move
 is put in front of the code so far.
 */
module SideTrace {

  const RID_MAX := 32
  const RID_MAX_GPR := 16
  const RID_ESP := 4

  type Reg = r: int | 0 <= r < RID_MAX

  // An instruction of the trace, by its reference.
  type Ref = nat

  datatype Kind = Gpr | Fpr

  // RSET_GPR and RSET_FPR.
  predicate InClass(k: Kind, r: Reg) {
    match k
    case Gpr => r < RID_MAX_GPR && r != RID_ESP
    case Fpr => r >= RID_MAX_GPR
  }

  function Class(k: Kind, s: set<Reg>): set<Reg> {
    set r | r in s && InClass(k, r)
  }

  // -------------------------------------------------------------- what code does

  datatype Move = Move(dst: Reg, src: Reg)

  // The registers after running the code.
  ghost function Exec(code: seq<Move>, regs: Reg -> int): Reg -> int {
    if code == [] then regs
    else Exec(code[1..], (r: Reg) => if r == code[0].dst then regs(code[0].src) else regs(r))
  }

  // Where the value that ends up in r was before.
  ghost function Origin(code: seq<Move>, r: Reg): Reg {
    if code == [] then r
    else
      var x := Origin(code[1..], r);
      if x == code[0].dst then code[0].src else x
  }

  lemma {:induction false} ExecMoves(code: seq<Move>, regs: Reg -> int, r: Reg)
    ensures Exec(code, regs)(r) == regs(Origin(code, r))
  {
    if code != [] {
      ExecMoves(code[1..], (x: Reg) => if x == code[0].dst then regs(code[0].src) else regs(x), r);
    }
  }

  // ------------------------------------------------------------------ the problem

  // For each live parent register, the register its value is wanted in.
  type Wanted = map<Reg, Reg>

  ghost predicate Injective(t: Wanted) {
    forall p: Reg, q: Reg :: p in t && q in t && t[p] == t[q] ==> p == q
  }

  // Registers of one kind, each of which one of the others is wanted in.
  ghost predicate Cycle(t: Wanted, k: Kind, s: set<Reg>) {
    s != {} && Closed(t, s) && forall r: Reg :: r in s ==> InClass(k, r)
  }

  ghost predicate Closed(t: Wanted, s: set<Reg>) {
    s <= t.Keys && forall r: Reg {:trigger WantedBy(t, s, r)} :: r in s ==> WantedBy(t, s, r)
  }

  ghost predicate WantedBy(t: Wanted, s: set<Reg>, r: Reg)
    requires s <= t.Keys
  {
    exists p: Reg :: p in s && t[p] == r
  }

  // Registers of the kind that may serve as temporaries.
  ghost function Temps(t: Wanted, allow: set<Reg>, k: Kind): set<Reg> {
    Class(k, allow) - t.Keys
  }

  // Some cycle has no temporary register to break it.
  ghost predicate TooComplex(t: Wanted, allow: set<Reg>) {
    exists k, s :: Temps(t, allow, k) == {} && Cycle(t, k, s)
  }

  lemma {:induction false} ImageSize(t: Wanted)
    requires Injective(t)
    ensures |t.Values| == |t|
  {
    if t != map[] {
      var p :| p in t;
      var rest := t - {p};
      ImageSize(rest);
      assert t.Values == rest.Values + {t[p]} && t[p] !in rest.Values by {
        forall v | v in t.Values ensures v in rest.Values + {t[p]} {
          var q :| q in t && t[q] == v;
          assert q != p ==> q in rest && rest[q] == v;
        }
      }
      assert t.Keys == rest.Keys + {p};
    } else {
      assert t.Values == {};
    }
  }

  // If every live register is wanted by one of them, they are all the registers wanted.
  lemma Permutation(t: Wanted)
    requires Injective(t) && t.Keys <= t.Values
    ensures t.Values == t.Keys
  {
    ImageSize(t);
    SameSize(t.Keys, t.Values);
  }

  lemma SameSize(a: set<Reg>, b: set<Reg>)
    requires a <= b && |a| == |b|
    ensures a == b
  {
    assert b == a + (b - a);
  }

  // ------------------------------------------------------------------ the assembler

  method PickBot(s: set<Reg>) returns (r: Reg)
    requires s != {}
    ensures r in s && forall x: Reg :: x in s ==> r <= x
  {
    r := 0;
    while r !in s
      invariant forall x: Reg :: x in s ==> r <= x
      decreases RID_MAX - r
    {
      assert exists x: Reg :: x in s && r < x;
      r := r + 1;
    }
  }

  class Assembler {
    var freeset: set<Reg>       // registers not allocated
    var reg: map<Ref, Reg>      // the register of an instruction (IR(ref)->r)
    var cost: map<Reg, Ref>     // the instruction an allocated register holds (as->cost)
    var code: seq<Move>         // the moves emitted so far, in run order

    constructor (freeset: set<Reg>, reg: map<Ref, Reg>, cost: map<Reg, Ref>)
      ensures this.freeset == freeset && this.reg == reg && this.cost == cost && code == []
    {
      this.freeset, this.reg, this.cost, this.code := freeset, reg, cost, [];
    }

    method EmitMov(dst: Reg, src: Reg)
      modifies `code
      ensures code == [Move(dst, src)] + old(code)
    {
      code := [Move(dst, src)] + code;
    }

    // ra_rename.
    method Rename(down: Reg, up: Reg)
      requires down in cost && cost[down] in reg && down != up
      modifies this
      ensures reg == old(reg[cost[down] := up])
      ensures cost == old(cost - {down})[up := old(cost[down])]
      ensures freeset == old(freeset) + {down} - {up}
      ensures code == [Move(down, up)] + old(code)
    {
      var ref := cost[down];
      cost := cost[up := ref];
      reg := reg[ref := up];
      cost := cost - {down};
      freeset := freeset + {down};
      freeset := freeset - {up};
      EmitMov(down, up);
    }

    // Where the values of the live registers are wanted now.
    ghost function Goals(live: set<Reg>, sloadins: map<Reg, Ref>): Wanted
      requires live <= sloadins.Keys && forall p: Reg :: p in live ==> sloadins[p] in reg
      reads this
    {
      map p | p in live :: reg[sloadins[p]]
    }

    // The instruction in the register where a live value is wanted is the one that wants it.
    ghost predicate Linked(live: set<Reg>, sloadins: map<Reg, Ref>)
      reads this
    {
      && live <= sloadins.Keys && (forall p: Reg :: p in live ==> sloadins[p] in reg)
      && (forall p: Reg :: p in live ==> reg[sloadins[p]] in cost && cost[reg[sloadins[p]]] == sloadins[p])
    }

    // Moves the value of a live register that is free to where it is wanted.
    method Coalesce(rp: Reg, live: set<Reg>, sloadins: map<Reg, Ref>)
      requires Linked(live, sloadins) && rp in live
      modifies this
      ensures Linked(live - {rp}, sloadins)
      ensures Goals(live - {rp}, sloadins) == old(Goals(live, sloadins)) - {rp}
      ensures freeset == old(freeset) + {old(Goals(live, sloadins))[rp]}
      ensures code == [Move(old(Goals(live, sloadins))[rp], rp)] + old(code)
    {
      var ir := sloadins[rp];
      freeset := freeset + {reg[ir]};
      EmitMov(reg[ir], rp);
    }

    // Gives a live register's value another register as its target.
    method Break(down: Reg, up: Reg, live: set<Reg>, sloadins: map<Reg, Ref>, ghost p: Reg)
      requires Linked(live, sloadins) && p in live && Goals(live, sloadins)[p] == down
      requires up !in Goals(live, sloadins).Values && Injective(Goals(live, sloadins))
      modifies this
      ensures Linked(live, sloadins)
      ensures Goals(live, sloadins) == old(Goals(live, sloadins))[p := up]
      ensures freeset == old(freeset) + {down} - {up}
      ensures code == [Move(down, up)] + old(code)
    {
      assert down != up;
      ghost var g := Goals(live, sloadins);
      forall q: Reg | q in live && q != p ensures g[q] != down && g[q] != up && sloadins[q] != sloadins[p] {
        assert g[q] in g.Values;
      }
      Rename(down, up);
    }

    // The registers are as asm_head_side leaves them for the shuffle: exactly the registers the live
    // values are wanted in are allocated, and registers that already hold what they should (`kept`)
    // are neither live nor allowed as temporaries.
    ghost predicate Shuffled(wanted: Wanted, live: set<Reg>, allow0: set<Reg>, allow: set<Reg>,
                             sloadins: map<Reg, Ref>, kept: set<Reg>, moves: seq<Move>)
      reads this
    {
      Linked(live, sloadins)
      && Progress(wanted, Goals(live, sloadins), freeset, allow0, allow, kept, moves)
    }

    // The inner loop: coalesces free live registers until none is left.
    method CoalesceAll(live0: set<Reg>, allow1: set<Reg>, sloadins: map<Reg, Ref>, ghost wanted: Wanted,
                       ghost allow0: set<Reg>, ghost kept: set<Reg>, ghost before: seq<Move>, ghost moves0: seq<Move>)
      returns (live: set<Reg>, allow: set<Reg>, ghost moves: seq<Move>)
      requires Shuffled(wanted, live0, allow0, allow1, sloadins, kept, moves0) && code == moves0 + before
      modifies this
      ensures Shuffled(wanted, live, allow0, allow, sloadins, kept, moves) && code == moves + before
      ensures freeset * live == {} && live <= live0
      ensures |live| <= |live0| && (old(freeset) * live0 != {} ==> |live| < |live0|)
    {
      hide Tidy;
      hide Traced;
      hide CyclesStay;
      live, allow, moves := live0, allow1, moves0;
      var work := freeset * live;
      while work != {}
        invariant Shuffled(wanted, live, allow0, allow, sloadins, kept, moves) && code == moves + before
        invariant live <= live0 && work == freeset * live
        invariant |live| <= |live0| && (old(freeset) * live0 != {} && work == {} ==> |live| < |live0|)
        decreases |live|
      {
        var rp := PickBot(work);
        ghost var goals := Goals(live, sloadins);
        CoalesceStep(wanted, goals, freeset, allow0, allow, kept, moves, rp);
        Coalesce(rp, live, sloadins);
        moves := [Move(goals[rp], rp)] + moves;
        live := live - {rp};
        allow := allow - {rp};
        work := freeset * live;
      }
    }

    // Breaks the cycles of one register class by renaming one target to a temporary register.
    method BreakCycle(k: Kind, live: set<Reg>, allow: set<Reg>, sloadins: map<Reg, Ref>, ghost wanted: Wanted,
                      ghost allow0: set<Reg>, ghost kept: set<Reg>, ghost before: seq<Move>, ghost moves0: seq<Move>)
      returns (ok: bool, ghost moves: seq<Move>)
      requires Shuffled(wanted, live, allow0, allow, sloadins, kept, moves0) && code == moves0 + before
      requires Class(k, freeset * live) == {}
      modifies this
      ensures !ok ==> TooComplex(wanted, allow0) && unchanged(this)
      ensures ok ==> Shuffled(wanted, live, allow0, allow, sloadins, kept, moves) && code == moves + before
      ensures ok && Class(k, live) != {} ==> freeset * live != {}
      ensures Class(k, live) == {} ==> ok && unchanged(this)
      ensures forall r: Reg :: !InClass(k, r) ==> (r in freeset <==> r in old(freeset))
    {
      hide Tidy;
      hide Traced;
      hide CyclesStay;
      ok, moves := true, moves0;
      ghost var goals := Goals(live, sloadins);
      assert goals.Keys == live;
      var stuck := Class(k, live);
      if stuck != {} {
        var tmpset := Class(k, (freeset - live) * allow);
        AtStall(wanted, goals, freeset, allow0, allow, kept, moves0, k);
        if tmpset == {} {
          return false, moves0;
        }
        var down := PickBot(stuck);
        var up := PickBot(tmpset);
        assert WantedBy(goals, stuck, down);
        ghost var p :| p in stuck && goals[p] == down;
        RenameStep(wanted, goals, freeset, allow0, allow, kept, moves0, p, up, k);
        Break(down, up, live, sloadins, p);
        moves := [Move(down, up)] + moves0;
        assert down in freeset * live;
      }
    }

    // The shuffle at the end of asm_head_side.
    method Shuffle(live0: set<Reg>, allow0: set<Reg>, sloadins: map<Reg, Ref>, ghost kept: set<Reg>)
      returns (ok: bool, ghost moves: seq<Move>)
      requires Linked(live0, sloadins)
      requires Tidy(Goals(live0, sloadins), Goals(live0, sloadins), freeset, allow0, allow0, kept)
      modifies this
      ensures ok <==> !TooComplex(old(Goals(live0, sloadins)), allow0)
      ensures ok ==> code == moves + old(code)
      ensures ok ==> forall regs: Reg -> int, p :: p in live0 ==>
        Exec(moves, regs)(old(Goals(live0, sloadins))[p]) == regs(p)
      ensures ok ==> forall regs: Reg -> int, r :: r in kept ==> Exec(moves, regs)(r) == regs(r)
    {
      hide Tidy;
      hide Traced;
      hide CyclesStay;
      ghost var wanted, before := Goals(live0, sloadins), code;
      AtEntry(wanted, freeset, allow0, kept);
      moves := [];
      var live, allow := live0, allow0;
      while true
        invariant Shuffled(wanted, live, allow0, allow, sloadins, kept, moves) && code == moves + before
        decreases 2 * |live| + (if freeset * live == {} then 1 else 0)
      {
        ghost var live1, moves1 := live, moves;
        live, allow, moves := CoalesceAll(live, allow, sloadins, wanted, allow0, kept, before, moves);
        if live == {} {
          Finished(wanted, freeset, allow0, allow, kept, moves);
          return true, moves;
        }
        LiveKinds(wanted, Goals(live, sloadins), freeset, allow0, allow, kept, moves);
        assert Class(Gpr, freeset * live) == {} && Class(Fpr, freeset * live) == {};
        var fits;
        fits, moves := BreakCycle(Gpr, live, allow, sloadins, wanted, allow0, kept, before, moves);
        if !fits {
          return false, moves;
        }
        assert Class(Fpr, freeset * live) == {} by {
          assert forall r: Reg :: r in Class(Fpr, freeset * live) ==> !InClass(Gpr, r) && InClass(Fpr, r);
        }
        fits, moves := BreakCycle(Fpr, live, allow, sloadins, wanted, allow0, kept, before, moves);
        if !fits {
          return false, moves;
        }
      }
    }

    // The register allocation is sound for the inherited instructions: each has a register of its own,
    // all other registers are free; and no two come from the same parent register.
    ghost predicate Inherited(refs: set<Ref>, parentmap: map<Ref, Reg>)
      reads this
    {
      && refs <= reg.Keys && refs <= parentmap.Keys
      && (forall i :: i in refs ==> reg[i] != RID_ESP && parentmap[i] != RID_ESP)
      && (forall i :: i in refs ==> reg[i] in cost && cost[reg[i]] == i)
      && (forall i, j :: i in refs && j in refs && parentmap[i] == parentmap[j] ==> i == j)
      && (forall i, k :: i in refs && InClass(k, parentmap[i]) ==> InClass(k, reg[i]))
      && (forall r: Reg :: r in freeset <==> r != RID_ESP && forall i :: i in refs ==> reg[i] != r)
    }

    // The scan at the start of asm_head_side, for instructions without spill slots.
    method Scan(ins: seq<Ref>, allow0: set<Reg>, parentmap: map<Ref, Reg>, ghost refs: set<Ref>)
      returns (live: set<Reg>, allow: set<Reg>, sloadins: map<Reg, Ref>, ghost kept: set<Reg>)
      requires Inherited(refs, parentmap) && forall i :: i in refs <==> i in ins
      modifies `freeset
      ensures Linked(live, sloadins)
      ensures Tidy(Goals(live, sloadins), Goals(live, sloadins), freeset, allow, allow, kept)
      ensures allow == allow0 - (set i | i in refs :: reg[i])
      ensures forall i :: i in refs ==>
        if reg[i] == parentmap[i] then reg[i] in kept
        else parentmap[i] in live && sloadins[parentmap[i]] == i
      ensures forall p: Reg :: p in live ==> sloadins[p] in refs && parentmap[sloadins[p]] == p && reg[sloadins[p]] != p
    {
      live, allow, sloadins, kept := {}, allow0, map[], {};
      ghost var seen: set<Ref> := {};
      for n := |ins| downto 0
        invariant seen == set k | n <= k < |ins| :: ins[k]
        invariant allow == allow0 - (set i | i in seen :: reg[i])
        invariant kept == set i | i in seen && reg[i] == parentmap[i] :: reg[i]
        invariant freeset == old(freeset) + kept
        invariant sloadins.Keys == live
        invariant forall i :: i in seen && reg[i] != parentmap[i] ==>
          parentmap[i] in live && sloadins[parentmap[i]] == i
        invariant forall p: Reg :: p in live ==>
          sloadins[p] in seen && parentmap[sloadins[p]] == p && reg[sloadins[p]] != p
      {
        var i := ins[n];
        assert i in refs;
        seen := seen + {i};
        var rs := parentmap[i];
        allow := allow - {reg[i]};
        if reg[i] == rs {
          freeset := freeset + {reg[i]};
          kept := kept + {reg[i]};
        } else {
          sloadins := sloadins[rs := i];
          live := live + {rs};
        }
      }
      assert seen == refs;
      Scanned(live, allow, sloadins, parentmap, refs, kept);
    }

    // The registers of the instructions that are left to move.
    lemma StillBusy(live: set<Reg>, sloadins: map<Reg, Ref>, parentmap: map<Ref, Reg>, refs: set<Ref>)
      requires refs <= reg.Keys && refs <= parentmap.Keys && live <= sloadins.Keys
      requires forall i :: i in refs && reg[i] != parentmap[i] ==> parentmap[i] in live && sloadins[parentmap[i]] == i
      requires forall p: Reg :: p in live ==>
        sloadins[p] in refs && parentmap[sloadins[p]] == p && reg[sloadins[p]] != p
      ensures Goals(live, sloadins).Values == set i | i in refs && reg[i] != parentmap[i] :: reg[i]
    {
      var goals := Goals(live, sloadins);
      forall i | i in refs && reg[i] != parentmap[i] ensures reg[i] in goals.Values {
        assert goals[parentmap[i]] == reg[i];
      }
      forall r: Reg | r in goals.Values ensures exists i :: i in refs && reg[i] != parentmap[i] && reg[i] == r {
        var p :| p in goals && goals[p] == r;
        assert sloadins[p] in refs;
      }
    }

    lemma Scanned(live: set<Reg>, allow: set<Reg>, sloadins: map<Reg, Ref>, parentmap: map<Ref, Reg>, refs: set<Ref>,
                  kept: set<Reg>)
      requires refs <= reg.Keys && refs <= parentmap.Keys && live <= sloadins.Keys
      requires forall i :: i in refs ==> reg[i] != RID_ESP && parentmap[i] != RID_ESP
      requires forall i :: i in refs ==> reg[i] in cost && cost[reg[i]] == i
      requires forall i, j :: i in refs && j in refs && parentmap[i] == parentmap[j] ==> i == j
      requires forall i, k :: i in refs && InClass(k, parentmap[i]) ==> InClass(k, reg[i])
      requires forall i :: i in refs && reg[i] != parentmap[i] ==> parentmap[i] in live && sloadins[parentmap[i]] == i
      requires forall p :: p in live ==> sloadins[p] in refs && parentmap[sloadins[p]] == p && reg[sloadins[p]] != p
      requires kept == set i | i in refs && reg[i] == parentmap[i] :: reg[i]
      requires forall r: Reg :: r in freeset <==> r in kept || (r != RID_ESP && forall i :: i in refs ==> reg[i] != r)
      requires allow !! kept
      ensures Tidy(Goals(live, sloadins), Goals(live, sloadins), freeset, allow, allow, kept)
    {
      StillBusy(live, sloadins, parentmap, refs);
      forall r: Reg | r != RID_ESP ensures r in freeset <==> r !in Goals(live, sloadins).Values {
        if i :| i in refs && reg[i] == r {
          assert r in kept <==> reg[i] == parentmap[i];
        }
      }
    }

    // The head of a side trace: unless too complex, the moves take the value of every inherited
    // instruction from its parent register to its own register, whatever cycles the two form.
    method HeadSide(ins: seq<Ref>, allow0: set<Reg>, parentmap: map<Ref, Reg>, ghost refs: set<Ref>)
      returns (ok: bool, ghost moves: seq<Move>, ghost wanted: Wanted)
      requires Inherited(refs, parentmap) && forall i :: i in refs <==> i in ins
      modifies this
      ensures ok ==> code == moves + old(code)
      ensures ok ==> forall regs: Reg -> int, i :: i in refs ==> Exec(moves, regs)(old(reg[i])) == regs(parentmap[i])
      ensures ok <==> !TooComplex(wanted, allow0 - old(set i | i in refs :: reg[i]))
      ensures forall i :: i in refs && old(reg[i]) != parentmap[i] ==>
        parentmap[i] in wanted && wanted[parentmap[i]] == old(reg[i])
      ensures forall p :: p in wanted ==> exists i :: i in refs && parentmap[i] == p && old(reg[i]) == wanted[p] != p
    {
      var live, allow, sloadins;
      ghost var kept;
      live, allow, sloadins, kept := Scan(ins, allow0, parentmap, refs);
      wanted := Goals(live, sloadins);
      ok, moves := Shuffle(live, allow, sloadins, kept);
      forall i | i in refs && old(reg[i]) != parentmap[i]
        ensures parentmap[i] in wanted && wanted[parentmap[i]] == old(reg[i])
      {
        assert sloadins[parentmap[i]] == i;
      }
      forall p | p in wanted ensures exists i :: i in refs && parentmap[i] == p && old(reg[i]) == wanted[p] != p {
        assert sloadins[p] in refs;
      }
    }
  }

  // `goals` is left to do of what was `wanted`: exactly the registers still wanted are allocated, and
  // registers whose value may not be lost any more are free but not allowed as temporaries.
  ghost predicate Tidy(wanted: Wanted, goals: Wanted, free: set<Reg>, allow0: set<Reg>, allow: set<Reg>,
                       kept: set<Reg>) {
    && goals.Keys <= wanted.Keys && Injective(goals)
    && (forall r: Reg :: r != RID_ESP ==> (r in free <==> r !in goals.Values))
    && RID_ESP !in wanted.Keys && RID_ESP !in goals.Values && RID_ESP !in free
    && (forall p: Reg, k :: p in goals && InClass(k, p) ==> InClass(k, goals[p]))
    && allow == allow0 - (wanted.Keys - goals.Keys)
    && (forall p: Reg :: p in wanted && p !in goals ==> p in free)
    && (forall r: Reg :: r in kept ==> r in free && r !in allow && r !in wanted)
  }

  // The moves so far bring each value to where it is wanted, from where it still has to be brought.
  ghost predicate Traced(wanted: Wanted, goals: Wanted, kept: set<Reg>, moves: seq<Move>) {
    && (forall p: Reg :: p in wanted ==> Origin(moves, wanted[p]) == if p in goals then goals[p] else p)
    && (forall r: Reg :: r in kept ==> Origin(moves, r) == r)
  }

  // Cycles without a temporary register are untouched.
  ghost predicate CyclesStay(wanted: Wanted, goals: Wanted, allow0: set<Reg>) {
    && (forall p: Reg, k :: p in goals && p in wanted && InClass(k, p) && Temps(wanted, allow0, k) == {} ==>
      goals[p] == wanted[p])
    && (forall k, s :: Temps(wanted, allow0, k) == {} && Cycle(wanted, k, s) ==> s <= goals.Keys)
  }

  ghost predicate Progress(wanted: Wanted, goals: Wanted, free: set<Reg>, allow0: set<Reg>, allow: set<Reg>,
                           kept: set<Reg>, moves: seq<Move>)
  {
    && Tidy(wanted, goals, free, allow0, allow, kept)
    && Traced(wanted, goals, kept, moves)
    && CyclesStay(wanted, goals, allow0)
  }

  lemma AtEntry(wanted: Wanted, free: set<Reg>, allow0: set<Reg>, kept: set<Reg>)
    requires Tidy(wanted, wanted, free, allow0, allow0, kept)
    ensures Progress(wanted, wanted, free, allow0, allow0, kept, [])
  {
  }

  lemma OriginFirst(m: Move, moves: seq<Move>, r: Reg)
    ensures Origin([m] + moves, r) == if Origin(moves, r) == m.dst then m.src else Origin(moves, r)
  {
    assert ([m] + moves)[1..] == moves;
  }

  lemma CoalesceStep(wanted: Wanted, goals: Wanted, free: set<Reg>, allow0: set<Reg>, allow: set<Reg>,
                     kept: set<Reg>, moves: seq<Move>, rp: Reg)
    requires Progress(wanted, goals, free, allow0, allow, kept, moves) && rp in goals && rp in free
    ensures Progress(wanted, goals - {rp}, free + {goals[rp]}, allow0, allow - {rp}, kept,
                     [Move(goals[rp], rp)] + moves)
  {
    CoalesceTidy(wanted, goals, free, allow0, allow, kept, rp);
    CoalesceTraced(wanted, goals, free, allow0, allow, kept, moves, rp);
    forall k, s | Temps(wanted, allow0, k) == {} && Cycle(wanted, k, s) ensures rp !in s {
      CycleOccupied(wanted, goals, allow0, k, s);
    }
  }

  lemma CycleOccupied(wanted: Wanted, goals: Wanted, allow0: set<Reg>, k: Kind, s: set<Reg>)
    requires CyclesStay(wanted, goals, allow0) && goals.Keys <= wanted.Keys
    requires Temps(wanted, allow0, k) == {} && Cycle(wanted, k, s)
    ensures s <= goals.Values
  {
    forall r: Reg | r in s ensures r in goals.Values {
      assert WantedBy(wanted, s, r);
      var q :| q in s && wanted[q] == r;
      assert InClass(k, q) && q in goals && goals[q] == r;
    }
  }

  lemma CoalesceTidy(wanted: Wanted, goals: Wanted, free: set<Reg>, allow0: set<Reg>, allow: set<Reg>,
                     kept: set<Reg>, rp: Reg)
    requires Tidy(wanted, goals, free, allow0, allow, kept) && rp in goals && rp in free
    ensures Tidy(wanted, goals - {rp}, free + {goals[rp]}, allow0, allow - {rp}, kept)
  {
    var goals' := goals - {rp};
    forall r: Reg ensures r in goals.Values <==> r in goals'.Values || r == goals[rp] {
      if r in goals.Values && r != goals[rp] {
        var q :| q in goals && goals[q] == r;
        assert q in goals' && goals'[q] == r;
      }
    }
  }

  lemma CoalesceTraced(wanted: Wanted, goals: Wanted, free: set<Reg>, allow0: set<Reg>, allow: set<Reg>,
                       kept: set<Reg>, moves: seq<Move>, rp: Reg)
    requires Tidy(wanted, goals, free, allow0, allow, kept) && Traced(wanted, goals, kept, moves)
    requires rp in goals && rp in free
    ensures Traced(wanted, goals - {rp}, kept, [Move(goals[rp], rp)] + moves)
  {
    forall p | p in wanted ensures Origin([Move(goals[rp], rp)] + moves, wanted[p]) ==
      if p in goals - {rp} then (goals - {rp})[p] else p
    {
      OriginFirst(Move(goals[rp], rp), moves, wanted[p]);
      assert goals[rp] in goals.Values && goals[rp] !in free;
    }
    forall r: Reg | r in kept ensures Origin([Move(goals[rp], rp)] + moves, r) == r {
      OriginFirst(Move(goals[rp], rp), moves, r);
      assert goals[rp] in goals.Values;
    }
  }

  lemma RenameStep(wanted: Wanted, goals: Wanted, free: set<Reg>, allow0: set<Reg>, allow: set<Reg>,
                   kept: set<Reg>, moves: seq<Move>, p: Reg, up: Reg, k: Kind)
    requires Progress(wanted, goals, free, allow0, allow, kept, moves) && p in goals
    requires InClass(k, p) && InClass(k, up) && up in free && up in allow && up !in goals.Keys
    ensures Progress(wanted, goals[p := up], free + {goals[p]} - {up}, allow0, allow, kept,
                     [Move(goals[p], up)] + moves)
  {
    RenameTidy(wanted, goals, free, allow0, allow, kept, p, up, k);
    RenameTraced(wanted, goals, free, allow0, allow, kept, moves, p, up);
    assert up in Temps(wanted, allow0, k);
  }

  lemma RenameTidy(wanted: Wanted, goals: Wanted, free: set<Reg>, allow0: set<Reg>, allow: set<Reg>,
                   kept: set<Reg>, p: Reg, up: Reg, k: Kind)
    requires Tidy(wanted, goals, free, allow0, allow, kept) && p in goals
    requires InClass(k, p) && InClass(k, up) && up in free && up in allow && up !in goals.Keys
    ensures Tidy(wanted, goals[p := up], free + {goals[p]} - {up}, allow0, allow, kept)
  {
    var goals' := goals[p := up];
    assert up !in goals.Values;
    forall r: Reg ensures r in goals'.Values <==> (r in goals.Values && r != goals[p]) || r == up {
      if r in goals.Values && r != goals[p] {
        var q :| q in goals && goals[q] == r;
        assert q in goals' && goals'[q] == r;
      }
      if r == up {
        assert goals'[p] == r;
      }
    }
  }

  lemma RenameTraced(wanted: Wanted, goals: Wanted, free: set<Reg>, allow0: set<Reg>, allow: set<Reg>,
                     kept: set<Reg>, moves: seq<Move>, p: Reg, up: Reg)
    requires Tidy(wanted, goals, free, allow0, allow, kept) && Traced(wanted, goals, kept, moves)
    requires p in goals && up in free
    ensures Traced(wanted, goals[p := up], kept, [Move(goals[p], up)] + moves)
  {
    forall q: Reg | q in wanted ensures Origin([Move(goals[p], up)] + moves, wanted[q]) ==
      if q in goals[p := up] then goals[p := up][q] else q
    {
      OriginFirst(Move(goals[p], up), moves, wanted[q]);
      assert goals[p] in goals.Values && goals[p] !in free;
    }
    forall r: Reg | r in kept ensures Origin([Move(goals[p], up)] + moves, r) == r {
      OriginFirst(Move(goals[p], up), moves, r);
      assert goals[p] in goals.Values;
    }
  }

  // Outside `free`, a register is a target of a live value of the same kind.
  lemma Occupied(wanted: Wanted, goals: Wanted, free: set<Reg>, allow0: set<Reg>, allow: set<Reg>,
                 kept: set<Reg>, k: Kind, r: Reg) returns (p: Reg)
    requires Tidy(wanted, goals, free, allow0, allow, kept) && InClass(k, r) && r !in free
    ensures p in goals && goals[p] == r && InClass(k, p)
  {
    assert r in goals.Values;
    p :| p in goals && goals[p] == r;
    assert InClass(if InClass(Gpr, p) then Gpr else Fpr, r);
  }

  // When no register of the kind can be coalesced, its live registers are all wanted by one of them.
  lemma Stalled(wanted: Wanted, goals: Wanted, free: set<Reg>, allow0: set<Reg>, allow: set<Reg>,
                kept: set<Reg>, k: Kind)
    requires Tidy(wanted, goals, free, allow0, allow, kept)
    requires Class(k, free * goals.Keys) == {}
    ensures Closed(goals, Class(k, goals.Keys))
    ensures forall r: Reg :: InClass(k, r) ==> (r in free <==> r !in goals)
  {
    var part := map p | p in goals && InClass(k, p) :: goals[p];
    forall r: Reg | r in part ensures r in part.Values {
      assert r in free ==> r in Class(k, free * goals.Keys);
      var p := Occupied(wanted, goals, free, allow0, allow, kept, k, r);
      assert p in part && part[p] == r;
    }
    Permutation(part);
    forall r: Reg | InClass(k, r) ensures r in free <==> r !in goals {
      if r !in free {
        var p := Occupied(wanted, goals, free, allow0, allow, kept, k, r);
        assert p in part && part[p] == r;
        assert r in part.Values;
      } else {
        assert r in goals ==> r in Class(k, free * goals.Keys);
      }
    }
    forall r: Reg | r in Class(k, goals.Keys) ensures WantedBy(goals, Class(k, goals.Keys), r) {
      var p := Occupied(wanted, goals, free, allow0, allow, kept, k, r);
      assert p in Class(k, goals.Keys);
    }
  }

  // Then the registers that can break the cycles are those that could from the start.
  lemma StalledTemps(wanted: Wanted, goals: Wanted, free: set<Reg>, allow0: set<Reg>, allow: set<Reg>,
                     kept: set<Reg>, k: Kind)
    requires Tidy(wanted, goals, free, allow0, allow, kept)
    requires Class(k, free * goals.Keys) == {}
    ensures Class(k, (free - goals.Keys) * allow) == Temps(wanted, allow0, k)
  {
    Stalled(wanted, goals, free, allow0, allow, kept, k);
  }

  // Without any, the cycles are cycles of what was wanted from the start.
  lemma StalledCycle(wanted: Wanted, goals: Wanted, allow0: set<Reg>, k: Kind)
    requires CyclesStay(wanted, goals, allow0) && goals.Keys <= wanted.Keys
    requires Closed(goals, Class(k, goals.Keys)) && Class(k, goals.Keys) != {}
    requires Temps(wanted, allow0, k) == {}
    ensures TooComplex(wanted, allow0)
  {
    var s := Class(k, goals.Keys);
    forall r: Reg | r in s ensures WantedBy(wanted, s, r) {
      assert WantedBy(goals, s, r);
      var p :| p in s && goals[p] == r;
      assert wanted[p] == r;
    }
    assert Cycle(wanted, k, s);
  }

  lemma LiveKinds(wanted: Wanted, goals: Wanted, free: set<Reg>, allow0: set<Reg>, allow: set<Reg>,
                  kept: set<Reg>, moves: seq<Move>)
    requires Progress(wanted, goals, free, allow0, allow, kept, moves)
    ensures goals.Keys != {} ==> Class(Gpr, goals.Keys) != {} || Class(Fpr, goals.Keys) != {}
  {
    if goals.Keys != {} {
      var p :| p in goals;
      assert p in (if InClass(Gpr, p) then Class(Gpr, goals.Keys) else Class(Fpr, goals.Keys));
    }
  }

  // All that breaking a cycle relies on.
  lemma AtStall(wanted: Wanted, goals: Wanted, free: set<Reg>, allow0: set<Reg>, allow: set<Reg>,
                kept: set<Reg>, moves: seq<Move>, k: Kind)
    requires Progress(wanted, goals, free, allow0, allow, kept, moves)
    requires Class(k, free * goals.Keys) == {} && Class(k, goals.Keys) != {}
    ensures var tmpset := Class(k, (free - goals.Keys) * allow);
      && (tmpset == {} ==> TooComplex(wanted, allow0))
      && (forall up: Reg :: up in tmpset ==> up !in goals.Values)
    ensures Closed(goals, Class(k, goals.Keys)) && Injective(goals)
  {
    Stalled(wanted, goals, free, allow0, allow, kept, k);
    StalledTemps(wanted, goals, free, allow0, allow, kept, k);
    if Temps(wanted, allow0, k) == {} {
      StalledCycle(wanted, goals, allow0, k);
    }
  }

  // A finished shuffle has moved every value, and met no cycle without a temporary register.
  lemma Finished(wanted: Wanted, free: set<Reg>, allow0: set<Reg>, allow: set<Reg>, kept: set<Reg>, moves: seq<Move>)
    requires Progress(wanted, map[], free, allow0, allow, kept, moves)
    ensures !TooComplex(wanted, allow0)
    ensures forall regs: Reg -> int, p :: p in wanted ==> Exec(moves, regs)(wanted[p]) == regs(p)
    ensures forall regs: Reg -> int, r :: r in kept ==> Exec(moves, regs)(r) == regs(r)
  {
    forall regs: Reg -> int, p | p in wanted ensures Exec(moves, regs)(wanted[p]) == regs(p) {
      ExecMoves(moves, regs, wanted[p]);
    }
    forall regs: Reg -> int, r | r in kept ensures Exec(moves, regs)(r) == regs(r) {
      ExecMoves(moves, regs, r);
    }
    var none: Wanted := map[];
    forall k, s | Temps(wanted, allow0, k) == {} ensures !Cycle(wanted, k, s) {
      assert Cycle(wanted, k, s) ==> s <= none.Keys;
    }
  }
}
