/**
 The code byte by byte: which bytes each number of the action list puts down, in terms of the list, the
 arguments and the code.
 */
module DasmBytes {
  import opened DasmActions
  import opened DasmImage
  import opened DasmLabels
  import opened DasmLayout
  import opened DasmLink
  import opened DasmMemory
  import opened DasmProgram

  // ---------------------------------------------------------------- reading the action list

  // Numbers with one more number behind them, with an argument, and at the end of a list.
  predicate HasOperand(a: int) {
    a == 241 || a == 244 || a == 246 || a == 248 || a == 250 || a == 252 || a == 254
  }

  predicate HasArgument(a: int) {
    234 <= a <= 239 || a == 241 || a == 245 || a == 247 || a == 249
  }

  predicate EndsList(a: int) {
    a == 254 || a == 255
  }

  // The steps are the actions of the list from q on, one behind the other, with these arguments.
  predicate Reads(acts: seq<int>, q: nat, args: seq<int>, steps: seq<Step>)
    decreases |steps|
  {
    && q < |acts| && steps != [] && steps[0].Act? && steps[0].q == q
    && (HasArgument(acts[q]) ==> args != [] && steps[0].n == args[0])
    && if EndsList(acts[q]) then |steps| == 1
       else Reads(acts, if HasOperand(acts[q]) then q + 2 else q + 1, if HasArgument(acts[q]) then args[1..] else args,
         steps[1..])
  }

  lemma DecodeNumbers(acts: seq<int>, q: nat)
    requires !Decode(acts, q).0.Other?
    ensures q < |acts| && Decode(acts, q).1 == if HasOperand(acts[q]) then 2 else 1
    ensures TakesArg(Decode(acts, q).0) == HasArgument(acts[q]) && Ends(Decode(acts, q).0) == EndsList(acts[q])
  {
  }

  lemma {:induction false} ProgramReads(acts: seq<int>, q: nat, args: seq<int>)
    requires Complete(acts, q, args)
    ensures Reads(acts, q, args, Program(acts, q, args))
    decreases |acts| - q
  {
    hide Decode;
    DecodeNumbers(acts, q);
    var (a, len) := Decode(acts, q);
    if !Ends(a) {
      ProgramReads(acts, q + len, if TakesArg(a) then args[1..] else args);
      assert Program(acts, q, args)[1..] == Program(acts, q + len, if TakesArg(a) then args[1..] else args);
    }
  }

  // ---------------------------------------------------------------- checks, labels, sections

  // By number: which arguments are accepted.
  lemma ChecksByNumber(acts: seq<int>, x: Step, t: Table, n: Limits)
    requires x.Act? && Decoded(acts, x)
    ensures x.q < |acts| && (HasOperand(acts[x.q]) ==> x.q + 1 < |acts| && 0 <= acts[x.q + 1] <= 255)
    ensures var a := acts[x.q];
      var m := if HasOperand(a) then acts[x.q + 1] else 0;
      Passes(x, t, n) <==>
        && (a == 234 ==> -128 <= x.n <= 127) && (a == 235 ==> 0 <= x.n <= 255) && (a == 236 ==> 0 <= x.n <= 65535)
        && (a == 238 ==> -128 <= x.n <= 65535)
        && (a == 245 || a == 247 || a == 249 ==> 0 <= x.n < n.pcs)
        && ((a == 244 || a == 246) && m <= 246 ==> m < n.lgs && (m < 10 ==> Known(t, LG(m))))
        && (a == 248 ==> m < n.lgs) && (a == 254 ==> m < n.sections)
  {
  }

  // By number: references and definitions; local labels from 247 on are still to come.
  lemma LabelsByNumber(acts: seq<int>, x: Step, p: Pos)
    requires x.Act? && Decoded(acts, x)
    ensures x.q < |acts| && (HasOperand(acts[x.q]) ==> x.q + 1 < |acts| && 0 <= acts[x.q + 1] <= 255)
    ensures var a, pc := acts[x.q], PC(if x.n < 0 then 0 else x.n);
      var m := if HasOperand(a) then acts[x.q + 1] else 0;
      EventAt(x, p) ==
        if a == 244 || a == 246 then [if m <= 246 then Ref(p, LG(m), false) else Ref(p, LG(m - 246), true)]
        else if a == 245 || a == 247 then [Ref(p, pc, false)]
        else if a == 248 then [Def(p, LG(m))]
        else if a == 249 then [Def(p, pc)]
        else []
    ensures IsRel(x) <==> acts[x.q] == 244 || acts[x.q] == 245
    ensures IsImmRef(x) <==> acts[x.q] == 246 || acts[x.q] == 247
    ensures forall s :: if acts[x.q] == 254 then Entered(x, s) == acts[x.q + 1] else Entered(x, s) == s
  {
  }

  // ---------------------------------------------------------------- the bytes

  // Two or four bytes, the lowest first.
  predicate TwoBytes(out: seq<int>, a: int, n: int) {
    && 0 <= a && a + 2 <= |out| && 0 <= out[a] < 256 && 0 <= out[a + 1] < 256
    && out[a] + 256 * out[a + 1] == n % 0x1_0000
  }

  predicate FourBytes(out: seq<int>, a: int, n: int) {
    && 0 <= a && a + 4 <= |out| && (forall i :: a <= i < a + 4 ==> 0 <= out[i] < 256)
    && out[a] + 256 * out[a + 1] + 0x1_0000 * out[a + 2] + 0x100_0000 * out[a + 3] == n % 0x1_0000_0000
  }

  // Branches, and numbers that stand for a byte of code: their own, or that behind 252.
  predicate Branch(c: Code, x: Step) {
    x.Act? && x.q < |c.acts| && (c.acts[x.q] == 244 || c.acts[x.q] == 245)
  }

  predicate Literal(c: Code, x: Step) {
    x.Act? && x.q < |c.acts| && (0 <= c.acts[x.q] < 233 || (c.acts[x.q] == 252 && x.q + 1 < |c.acts|))
  }

  function LiteralByte(c: Code, x: Step): int
    requires Literal(c, x)
  {
    if c.acts[x.q] == 252 then c.acts[x.q + 1] else c.acts[x.q]
  }

  // 238 and 239 with an argument of one byte.
  predicate ShortForm(c: Code, x: Step) {
    x.Act? && x.q < |c.acts| && (c.acts[x.q] == 238 || c.acts[x.q] == 239) && -128 <= x.n <= 127
  }

  // The step right behind k, or the one behind that, changes a byte that step k puts down: a branch that
  // was shrunk, or a short immediate.
  ghost predicate Patched(c: Code, s: nat, k: nat)
    requires s < |c.steps| && k < |c.steps[s]|
  {
    var x := c.steps[s];
    || (k + 1 < |x| && Branch(c, x[k + 1]) && CutAt(c, s, k + 1) > 0)
    || (k + 2 < |x| && Literal(c, x[k + 1]) &&
        ((Branch(c, x[k + 2]) && CutAt(c, s, k + 2) == 4) || ShortForm(c, x[k + 2])))
  }

  // What step k of section s puts down, by the number in the action list: from a to e.
  ghost predicate PutsDown(c: Code, out: seq<int>, s: nat, k: nat)
    requires s < |c.steps| && k < |c.steps[s]|
  {
    var x, a, e := c.steps[s][k], AtOf(c.at, s, k), AtOf(c.at, s, k + 1);
    && 0 <= a <= e <= |out|
    && (x.Act? ==>
          && x.q < |c.acts|
          && var number := c.acts[x.q];
          && (HasOperand(number) ==> x.q + 1 < |c.acts|)
          && var m := if HasOperand(number) then c.acts[x.q + 1] else 0;
          && (number < 233 ==> e == a + 1 && (!Patched(c, s, k) ==> out[a] == number))
          && (number == 252 ==> e == a + 1 && (!Patched(c, s, k) ==> out[a] == m))
          && (number == 234 || number == 235 ==> e == a + 1 && out[a] == x.n % 256)
          && (number == 236 ==> e == a + 2 && TwoBytes(out, a, x.n))
          && (number == 237 ==> e == a + 4 && FourBytes(out, a, x.n))
          && ((number == 238 || number == 239) && -128 <= x.n <= 127 ==>
                e == a + 1 && out[a] == x.n % 256 && PlusTwo(c, out, s, k))
          && (number == 238 && !(-128 <= x.n <= 127) ==> e == a + 2 && TwoBytes(out, a, x.n))
          && (number == 239 && !(-128 <= x.n <= 127) ==> e == a + 4 && FourBytes(out, a, x.n))
          && (number == 241 ==> e == (if x.n < 0 then a else a + x.n) && forall i :: a <= i < e ==> out[i] == m)
          && (number == 250 ==> m >= 0 && e % (m + 1) == 0 && e <= a + m && forall i :: a <= i < e ==> out[i] == 0x90)
          && (number == 244 || number == 245 ==> e == a + 4 - CutAt(c, s, k))
          && (number == 246 || number == 247 ==> e == a + 4)
          && (number == 248 || number == 249 || number == 254 || number == 255 ==> e == a))
  }

  // A short immediate adds two to the opcode, the byte before the one before it.
  ghost predicate PlusTwo(c: Code, out: seq<int>, s: nat, k: nat)
    requires s < |c.steps| && k < |c.steps[s]|
  {
    && k >= 2 && Literal(c, c.steps[s][k - 2]) && Literal(c, c.steps[s][k - 1])
    && var a := AtOf(c.at, s, k);
       2 <= a <= |out| && out[a - 2] == (LiteralByte(c, c.steps[s][k - 2]) + 2) % 256
  }

  lemma DecodedStep(c: Code, s: nat, k: nat)
    requires CodeOk(c) && s < |c.steps| && k < |c.steps[s]|
    ensures Decoded(c.acts, c.steps[s][k])
  {
    hide Fixed, Shape;
  }

  // What a number decodes to.
  lemma NumberDecodes(c: Code, x: Step)
    requires x.Act? && Decoded(c.acts, x)
    ensures x.q < |c.acts| && 0 <= c.acts[x.q] <= 255
    ensures HasOperand(c.acts[x.q]) ==> x.q + 1 < |c.acts| && 0 <= c.acts[x.q + 1] <= 255
    ensures IsByte(x) == Literal(c, x) && (IsByte(x) ==> x.act.b == LiteralByte(c, x) && 0 <= x.act.b < 256)
    ensures IsRel(x) == Branch(c, x) && PatchesImm(x) == ShortForm(c, x)
    ensures var a := c.acts[x.q];
      && x.act.Value? == (234 <= a <= 239)
      && (a == 234 ==> x.act.imm == ImmS) && (a == 235 ==> x.act.imm == ImmB) && (a == 236 ==> x.act.imm == ImmW)
      && (a == 237 ==> x.act.imm == ImmD) && (a == 238 ==> x.act.imm == ImmWB) && (a == 239 ==> x.act.imm == ImmDB)
      && x.act.Space? == (a == 241) && (a == 241 ==> x.act.fill == c.acts[x.q + 1])
      && IsAlign(x) == (a == 250) && (a == 250 ==> x.act.mask == c.acts[x.q + 1])
      && IsImmRef(x) == (a == 246 || a == 247) && IsDef(x) == (a == 248 || a == 249)
      && Ends(x.act) == (a == 254 || a == 255)
  {
  }

  lemma LowestFirst(n: int)
    ensures TwoBytes(LE(n, 2), 0, n) && FourBytes(LE(n, 4), 0, n) && LE(n, 1) == [n % 256]
  {
    hide FromLE;
    var n1, n2, n3 := n / 256, n / 256 / 256, n / 256 / 256 / 256;
    assert LE(n3, 1) == [n3 % 256];
    assert LE(n2, 2) == [n2 % 256, n3 % 256];
    assert LE(n1, 3) == [n1 % 256, n2 % 256, n3 % 256];
    assert LE(n, 4) == [n % 256, n1 % 256, n2 % 256, n3 % 256];
    assert LE(n1, 1) == [n1 % 256];
    assert LE(n, 2) == [n % 256, n1 % 256];
    PlaceValues(n, n1, n2, n3);
  }

  lemma PlaceValues(n: int, n1: int, n2: int, n3: int)
    requires n1 == n / 256 && n2 == n1 / 256 && n3 == n2 / 256
    ensures n % 256 + 256 * (n1 % 256) == n % 0x1_0000
    ensures n % 256 + 256 * (n1 % 256) + 0x1_0000 * (n2 % 256) + 0x100_0000 * (n3 % 256) == n % 0x1_0000_0000
  {
    var low := n % 256 + 256 * (n1 % 256);
    assert n == low + 0x1_0000 * n2;
    MultipleMod(n2, 0x1_0000, low);
    var r := low + 0x1_0000 * (n2 % 256) + 0x100_0000 * (n3 % 256);
    assert n == r + 0x1_0000_0000 * (n3 / 256);
    MultipleMod(n3 / 256, 0x1_0000_0000, r);
  }

  lemma BytesThere(out: seq<int>, a: nat, e: nat, n: int)
    requires a <= e <= |out| && out[a..e] == LE(n, e - a)
    ensures e - a == 1 ==> out[a] == n % 256
    ensures e - a == 2 ==> TwoBytes(out, a, n)
    ensures e - a == 4 ==> FourBytes(out, a, n)
  {
    hide LE;
    LowestFirst(n);
    assert forall i :: a <= i < e ==> out[i] == out[a..e][i - a];
  }

  // Reading four bytes, and one with a sign.
  lemma WordsRead(b: seq<int>)
    requires |b| == 4
    ensures FromLE(b) == b[0] + 256 * b[1] + 0x1_0000 * b[2] + 0x100_0000 * b[3]
  {
    assert b[1..][1..] == b[2..] && b[2..][1..] == b[3..] && b[3..][1..] == [];
    assert FromLE(b[3..]) == b[3] + 256 * FromLE([]);
    assert FromLE(b[2..]) == b[2] + 256 * FromLE(b[3..]);
    assert FromLE(b[1..]) == b[1] + 256 * FromLE(b[2..]);
  }

  // Literal bytes, unless they are patched.
  lemma LiteralPut(c: Code, out: seq<int>, s: nat, k: nat)
    requires CodeOk(c) && Image(c, out, |c.steps|, 0) && s < |c.steps| && k < |c.steps[s]| && IsByte(c.steps[s][k])
    ensures var x, a := c.steps[s][k], AtOf(c.at, s, k);
      && AtOf(c.at, s, k + 1) == a + 1 && 0 <= a < |out| && Literal(c, x)
      && (!Patched(c, s, k) ==> out[a] == LiteralByte(c, x))
  {
    hide CodeOk;
    var x := c.steps[s];
    DecodedStep(c, s, k);
    NumberDecodes(c, x[k]);
    StepEnds(c, s, k);
    if k + 1 < |x| {
      DecodedStep(c, s, k + 1);
      if x[k + 1].Act? {
        NumberDecodes(c, x[k + 1]);
      }
      StepEnds(c, s, k + 1);
    }
    if k + 2 < |x| {
      DecodedStep(c, s, k + 2);
      if x[k + 2].Act? {
        NumberDecodes(c, x[k + 2]);
      }
    }
    assert Emits(c, out, s, k, |x|);
  }

  // The opcode of a short immediate.
  lemma ShortPut(c: Code, out: seq<int>, s: nat, k: nat)
    requires CodeOk(c) && Image(c, out, |c.steps|, 0) && s < |c.steps| && k < |c.steps[s]| && PatchesImm(c.steps[s][k])
    ensures PlusTwo(c, out, s, k)
  {
    hide CodeOk;
    var x := c.steps[s];
    PatchedSteps(c, s, k);
    StepEnds(c, s, k);
    DecodedStep(c, s, k - 2);
    DecodedStep(c, s, k - 1);
    NumberDecodes(c, x[k - 2]);
    NumberDecodes(c, x[k - 1]);
    assert Emits(c, out, s, k - 2, |x|) && Emits(c, out, s, k, |x|);
    assert ByteNow(c, s, k - 2, |x|) == Is((x[k - 2].act.b + 2) % 256);
  }

  /** Every number of the action list puts down the bytes it stands for. */
  lemma BytesByNumber(c: Code, out: seq<int>, s: nat, k: nat)
    requires CodeOk(c) && Image(c, out, |c.steps|, 0) && s < |c.steps| && k < |c.steps[s]|
    ensures PutsDown(c, out, s, k)
  {
    hide CodeOk, Decode, LE, TwoBytes, FourBytes, Patched, PlusTwo;
    var x, a, e := c.steps[s][k], AtOf(c.at, s, k), AtOf(c.at, s, k + 1);
    DecodedStep(c, s, k);
    StepEnds(c, s, k);
    assert Emits(c, out, s, k, |c.steps[s]|);
    if x.Act? {
      NumberDecodes(c, x);
      if IsByte(x) {
        LiteralPut(c, out, s, k);
      } else if x.act.Value? {
        BytesThere(out, a, e, x.n);
        if PatchesImm(x) {
          ShortPut(c, out, s, k);
        }
      } else if IsAlign(x) {
        PadFits(a, x.act.mask, Pad(a, x.act.mask));
      }
    }
  }

  // ---------------------------------------------------------------- which branches are short

  // The most bytes a step can take, by number: what the estimates of pass 1 add up.
  lemma EstimateByNumber(acts: seq<int>, x: Step)
    requires x.Act? && Decoded(acts, x)
    ensures x.q < |acts| && (HasOperand(acts[x.q]) ==> x.q + 1 < |acts|)
    ensures var a, m := acts[x.q], MaxSize(x);
      && (a < 233 || a == 252 || a == 234 || a == 235 ==> m == 1) && (a == 236 ==> m == 2) && (a == 237 ==> m == 4)
      && (a == 238 ==> m == if -128 <= x.n <= 127 then 1 else 2)
      && (a == 239 ==> m == if -128 <= x.n <= 127 then 1 else 4)
      && (a == 241 ==> m == if x.n < 0 then 0 else x.n) && (244 <= a <= 247 ==> m == 4)
      && (a == 250 ==> m == acts[x.q + 1]) && (a == 248 || a == 249 || a == 254 || a == 255 ==> m == 0)
  {
  }

  // The label of a reference, and by how much a branch there can shrink.
  ghost predicate ToLabel(c: Code, s: nat, k: nat, ls: nat, lk: nat, shrink: int) {
    && s < |c.steps| && k < |c.steps[s]| && Branch(c, c.steps[s][k]) && HasLabel(c.what, c.t, StepPos(c.steps, s, k))
    && c.what[c.t.target[StepPos(c.steps, s, k)]].s == ls && c.what[c.t.target[StepPos(c.steps, s, k)]].k == lk
    && ls < |c.steps| && lk < |c.steps[ls]|
    && c.steps[s][k].q > 0
    && var op := c.acts[c.steps[s][k].q - 1];
       (op == 0xe9 && shrink == 3) || (0x80 <= op <= 0x8f && shrink == 4)
  }

  /**
   * A branch back is short exactly if its distance then fits into a byte; a branch ahead exactly if it does
   * when every step between has its full size.
   */
  lemma BranchesShrink(c: Code, s: nat, k: nat, ls: nat, lk: nat, shrink: int)
    requires CodeOk(c) && ToLabel(c, s, k, ls, lk, shrink)
    ensures var short := AtOf(c.at, s, k) + 4 - shrink;
      CutAt(c, s, k) ==
        if (if Before(s, k, ls, lk) then EstAll(c.steps, ls, lk) - EstAll(c.steps, s, k + 1) <= 127
            else AtOf(c.at, ls, lk) - short >= -128)
        then shrink else 0
  {
    hide Walks, Shape, Laid, FixedTo;
    DecodedStep(c, s, k);
    NumberDecodes(c, c.steps[s][k]);
    CutIsDecision(c, s, k);
    NoStray(c, StepPos(c.steps, s, k));
    if Before(s, k, ls, lk) {
      EstimatesAscend(c.steps, s, k + 1, ls, lk);
    } else {
      PlacesAscend(c, ls, lk, s, k);
    }
  }

  lemma NoStray(c: Code, p: Pos)
    requires HasLabel(c.what, c.t, p)
    ensures !Stray(c.what, c.t, p)
  {
  }

  lemma {:induction false} EstimatesAscend(steps: seq<seq<Step>>, s: nat, k: nat, s': nat, k': nat)
    requires s <= s' < |steps| && k <= |steps[s]| && k' <= |steps[s']| && (s == s' ==> k <= k')
    ensures EstAll(steps, s, k) <= EstAll(steps, s', k')
    decreases s', k'
  {
    if s != s' || k != k' {
      if k' > 0 {
        EstimatesAscend(steps, s, k, s', k' - 1);
      } else {
        EstimatesAscend(steps, s, k, s' - 1, |steps[s' - 1]|);
      }
    }
  }

  lemma PlacesAscend(c: Code, s: nat, k: nat, s': nat, k': nat)
    requires CodeOk(c) && s' < |c.steps| && k' < |c.steps[s']| && s < |c.steps| && k < |c.steps[s]|
    requires !Before(s', k', s, k)
    ensures AtOf(c.at, s, k) <= AtOf(c.at, s', k')
  {
    hide Built, FixedTo;
    Slack(c.at, c.steps, c.buf, |c.steps|, 0, s, k, s', k');
  }
}
