/** The bytes of the third pass: what each step leaves in the code, patches of earlier bytes included. */
module DasmImage {
  import opened DasmActions
  import opened DasmLabels
  import opened DasmLayout
  import opened DasmLink
  import opened DasmMemory

  // The low w bytes of n, the lowest first.
  function LE(n: int, w: nat): (b: seq<int>)
    ensures |b| == w
    decreases w
  {
    if w == 0 then [] else [n % 256] + LE(n / 256, w - 1)
  }

  function FromLE(b: seq<int>): int {
    if b == [] then 0 else b[0] + 256 * FromLE(b[1..])
  }

  lemma ReadDigit(n: int, w: nat)
    ensures FromLE(LE(n, w + 1)) == n % 256 + 256 * FromLE(LE(n / 256, w)) && FromLE(LE(n, 0)) == 0
    ensures w == 0 ==> FromLE(LE(n / 256, w)) == 0
  {
    assert LE(n, w + 1)[1..] == LE(n / 256, w);
  }

  // Writing and reading a word of four bytes gives the number, modulo 2^32.
  lemma ReadBack(n: int)
    ensures FromLE(LE(n, 4)) == n % 0x1_0000_0000
  {
    hide LE;
    hide FromLE;
    var n1, n2, n3 := n / 256, n / 256 / 256, n / 256 / 256 / 256;
    ReadDigit(n, 3);
    ReadDigit(n1, 2);
    ReadDigit(n2, 1);
    ReadDigit(n3, 0);
    var r := n % 256 + 256 * (n1 % 256) + 0x1_0000 * (n2 % 256) + 0x100_0000 * (n3 % 256);
    assert n == r + 0x1_0000_0000 * (n3 / 256);
    MultipleMod(n3 / 256, 0x1_0000_0000, r);
  }

  function Signed(b: int): int {
    if b < 128 then b else b - 256
  }

  lemma SignedByte(n: int)
    requires -128 <= n <= 127
    ensures Signed(n % 256) == n
  {
  }

  // The finished program: everything the third pass reads.
  datatype Code = Code(acts: seq<int>, steps: seq<seq<Step>>, buf: map<Pos, int>, what: Memory, t: Table,
    at: seq<seq<int>>,
                       size: int, base: int, globals: seq<int>)

  ghost predicate CodeOk(c: Code) {
    && Built(c.acts, c.steps, c.what, c.t) && Fixed(c.buf, c.acts, c.steps, c.what, c.t, c.at, c.size)
  }

  function CutAt(c: Code, s: nat, k: nat): int
    requires s < |c.steps| && k < |c.steps[s]|
  {
    Cut(c.steps, c.buf, s, k)
  }

  // The value of the byte that step k of section s put down, once the steps before `upto` are emitted;
  // none if a branch put its distance there.
  datatype Now = Is(b: int) | Taken

  function ByteNow(c: Code, s: nat, k: nat, upto: nat): Now
    requires s < |c.steps| && k < |c.steps[s]| && upto <= |c.steps[s]| && IsByte(c.steps[s][k])
  {
    var b, steps := c.steps[s][k].act.b % 256, c.steps[s];
    if k + 1 < upto && IsRel(steps[k + 1]) && CutAt(c, s, k + 1) == 3 then Is(0xeb)
    else if k + 1 < upto && IsRel(steps[k + 1]) && CutAt(c, s, k + 1) == 4 then Taken
    else if k + 2 < upto && IsByte(steps[k + 1]) && IsRel(steps[k + 2]) && CutAt(c, s, k + 2) == 4 then
      Is((steps[k + 1].act.b - 0x10) % 256)
    else if k + 2 < upto && IsByte(steps[k + 1]) && PatchesImm(steps[k + 2]) then Is((b + 2) % 256)
    else Is(b)
  }

  // The word of a reference: the distance to the label, or its address; the same for an external address.
  function RefValue(c: Code, s: nat, k: nat): int
    requires s < |c.steps| && k < |c.steps[s]|
  {
    var x, p, e := c.steps[s][k], StepPos(c.steps, s, k), AtOf(c.at, s, k + 1);
    if p in c.t.target then
      if IsRel(x) then LabelOffset(c, p) - e else LabelOffset(c, p) + c.base
    else if Stray(c.what, c.t, p) then
      if IsRel(x) then StrayValue(c.what, c.t, p) - e else StrayValue(c.what, c.t, p) + c.base
    else
      var address := Extern(c, s, k);
      if IsRel(x) then address - (c.base + e) else address
  }

  function Extern(c: Code, s: nat, k: nat): int
    requires s < |c.steps| && k < |c.steps[s]|
  {
    var x := c.steps[s][k];
    if IsRef(x) && RefLab(x).LG? && RefLab(x).n < |c.globals| then c.globals[RefLab(x).n] else 0
  }

  // What step k of section s leaves in the code.
  ghost predicate Emits(c: Code, out: seq<int>, s: nat, k: nat, upto: nat)
    requires s < |c.steps| && k < upto <= |c.steps[s]|
  {
    var x, a, e := c.steps[s][k], AtOf(c.at, s, k), AtOf(c.at, s, k + 1);
    && 0 <= a <= e <= |out|
    && (IsByte(x) ==> a < e && match ByteNow(c, s, k, upto) case Is(b) => out[a] == b case Taken => true)
    && (x.Act? && x.act.Value? ==> out[a..e] == LE(x.n, ImmSize(x.act.imm, x.n)))
    && (x.Act? && x.act.Space? ==> forall i :: a <= i < e ==> out[i] == x.act.fill % 256)
    && (IsAlign(x) ==> forall i :: a <= i < e ==> out[i] == 0x90)
    && (IsRel(x) && CutAt(c, s, k) > 0 ==> 0 < e && out[e - 1] == RefValue(c, s, k) % 256)
    && (IsRel(x) && CutAt(c, s, k) == 0 ==> out[a..e] == LE(RefValue(c, s, k), 4))
    && (IsImmRef(x) ==> out[a..e] == LE(RefValue(c, s, k), 4))
  }

  // All steps before step k of section `sec` are emitted.
  ghost predicate Image(c: Code, out: seq<int>, sec: nat, k: nat) {
    && sec <= |c.steps| && (if sec < |c.steps| then k <= |c.steps[sec]| else k == 0)
    && (forall s, j {:trigger Emits(c, out, s, j, |c.steps[s]|)} :: 0 <= s < sec && 0 <= j < |c.steps[s]| ==>
          Emits(c, out, s, j, |c.steps[s]|))
    && (forall j {:trigger Emits(c, out, sec, j, k)} :: 0 <= j < k ==> Emits(c, out, sec, j, k))
  }

  // The positions of the code that step k changes behind itself.
  function PatchFrom(c: Code, s: nat, k: nat): nat
    requires s < |c.steps| && k < |c.steps[s]|
  {
    var x := c.steps[s][k];
    if IsRel(x) && CutAt(c, s, k) == 3 then 1
    else if (IsRel(x) && CutAt(c, s, k) == 4) || PatchesImm(x) then 2
    else 0
  }

  // The steps whose bytes are patched come right before.
  lemma PatchedSteps(c: Code, s: nat, k: nat)
    requires CodeOk(c) && s < |c.steps| && k < |c.steps[s]|
    ensures var n, x := PatchFrom(c, s, k), c.steps[s][k];
      && (n >= 1 ==> k >= 1 && IsByte(c.steps[s][k - 1]) && AtOf(c.at, s, k - 1) == AtOf(c.at, s, k) - 1)
      && (n >= 2 ==> k >= 2 && IsByte(c.steps[s][k - 2]) && AtOf(c.at, s, k - 2) == AtOf(c.at, s, k) - 2)
      && (IsRel(x) && CutAt(c, s, k) > 0 ==> n >= 1 && c.steps[s][k - 1].act.b == Opcode(c.acts, x.q))
  {
    hide Decision;
    hide Shape;
    hide Laid;
    hide FixedTo;
    CutIsDecision(c, s, k);
    assert Patchable(c.acts, c.steps[s]) && PatchOk(c.acts, c.steps[s], k);
    if PatchFrom(c, s, k) >= 1 {
      ByteSize(c, s, k - 1);
    }
    if PatchFrom(c, s, k) >= 2 {
      ByteSize(c, s, k - 2);
    }
  }

  lemma ByteSize(c: Code, s: nat, k: nat)
    requires CodeOk(c) && s < |c.steps| && k < |c.steps[s]| && IsByte(c.steps[s][k])
    ensures AtOf(c.at, s, k + 1) == AtOf(c.at, s, k) + 1
  {
    hide Decision;
    hide Shape;
    hide FixedTo;
    assert StepLaid(c.at, c.steps, c.buf, s, k);
  }

  lemma CutIsDecision(c: Code, s: nat, k: nat)
    requires CodeOk(c) && s < |c.steps| && k < |c.steps[s]|
    ensures CutAt(c, s, k) == Decision(c.acts, c.steps, c.what, c.t, c.at, s, k)
    ensures IsRel(c.steps[s][k]) && CutAt(c, s, k) > 0 ==> CutAt(c, s, k) == Shrink(Opcode(c.acts, c.steps[s][k].q))
  {
    hide Walks;
    hide Laid;
    hide HasLabel;
    hide Distance;
    var p := StepPos(c.steps, s, k);
    StepWords(c.what, c.steps, s, k);
    assert p + 1 in c.what ==>
      FixedWord(c.buf[p + 1], p + 1, c.what[p + 1], c.acts, c.steps, c.what, c.t, c.at, |c.steps|, 0);
  }

  // The code before step k of section `sec` stays as it is, but for the bytes that step patches.
  ghost predicate Patches(c: Code, out: seq<int>, out': seq<int>, sec: nat, k: nat)
    requires sec < |c.steps| && k < |c.steps[sec]|
  {
    var n, x := PatchFrom(c, sec, k), c.steps[sec][k];
    && n <= |out| <= |out'| && n <= k && (forall i :: 0 <= i < |out| - n ==> out'[i] == out[i])
    && (n == 1 ==> out'[|out| - 1] == 0xeb)
    && (n == 2 && IsRel(x) ==>
      IsByte(c.steps[sec][k - 1]) && out'[|out| - 2] == (c.steps[sec][k - 1].act.b - 0x10) % 256)
    && (n == 2 && !IsRel(x) ==> out'[|out| - 1] == out[|out| - 1] && out'[|out| - 2] == (out[|out| - 2] + 2) % 256)
  }

  lemma RegionBefore(c: Code, sec: nat, k: nat, s: nat, j: nat)
    requires CodeOk(c) && sec < |c.steps| && k < |c.steps[sec]| && PatchFrom(c, sec, k) <= k
    requires s < |c.steps| && j < |c.steps[s]| && Before(s, j, sec, k - PatchFrom(c, sec, k))
    ensures AtOf(c.at, s, j + 1) <= AtOf(c.at, sec, k) - PatchFrom(c, sec, k)
  {
    hide Decision;
    hide Built;
    hide FixedTo;
    PatchedHere(c, sec, k);
    Slack(c.at, c.steps, c.buf, |c.steps|, 0, s, j + 1, sec, k - PatchFrom(c, sec, k));
  }

  lemma PatchedHere(c: Code, s: nat, k: nat)
    requires CodeOk(c) && s < |c.steps| && k < |c.steps[s]| && PatchFrom(c, s, k) <= k
    ensures AtOf(c.at, s, k - PatchFrom(c, s, k)) == AtOf(c.at, s, k) - PatchFrom(c, s, k)
  {
    PatchedSteps(c, s, k);
  }

  lemma EmitsStays(c: Code, out: seq<int>, out': seq<int>, sec: nat, k: nat, s: nat, j: nat, limit: nat)
    requires CodeOk(c) && sec < |c.steps| && k < |c.steps[sec]| && |out| == AtOf(c.at, sec, k)
    requires Patches(c, out, out', sec, k) && s < |c.steps| && j < |c.steps[s]| && Before(s, j, sec, k)
    requires limit == (if s == sec then k else |c.steps[s]|) && Emits(c, out, s, j, limit)
    ensures Emits(c, out', s, j, if s == sec then k + 1 else limit)
  {
    hide CodeOk;
    hide RefValue;
    hide CutAt;
    hide AtOf;
    var n := PatchFrom(c, sec, k);
    PatchedSteps(c, sec, k);
    var a, e := AtOf(c.at, s, j), AtOf(c.at, s, j + 1);
    if Before(s, j, sec, k - n) {
      RegionBefore(c, sec, k, s, j);
      assert e <= |out| - n;
      assert out'[a..e] == out[a..e];
    } else {
      ByteSize(c, s, j);
    }
  }

  // The image once step k of section `sec` is emitted as well.
  lemma ImageMore(c: Code, out: seq<int>, out': seq<int>, sec: nat, k: nat)
    requires CodeOk(c) && sec < |c.steps| && k < |c.steps[sec]| && |out| == AtOf(c.at, sec, k)
    requires Image(c, out, sec, k) && Patches(c, out, out', sec, k) && Emits(c, out', sec, k, k + 1)
    ensures Image(c, out', sec, k + 1)
  {
    hide CodeOk;
    hide Emits;
    hide Patches;
    forall s, j | 0 <= s < sec && 0 <= j < |c.steps[s]| ensures Emits(c, out', s, j, |c.steps[s]|) {
      EmitsStays(c, out, out', sec, k, s, j, |c.steps[s]|);
    }
    forall j {:trigger Emits(c, out', sec, j, k + 1)} | 0 <= j < k ensures Emits(c, out', sec, j, k + 1) {
      EmitsStays(c, out, out', sec, k, sec, j, k);
    }
  }

  // A section is done.
  lemma ImageNext(c: Code, out: seq<int>, sec: nat)
    requires sec < |c.steps| && Image(c, out, sec, |c.steps[sec]|)
    ensures Image(c, out, sec + 1, 0)
  {
    hide Emits;
    forall s, j {:trigger Emits(c, out, s, j, |c.steps[s]|)} | 0 <= s < sec + 1 && 0 <= j < |c.steps[s]|
      ensures Emits(c, out, s, j, |c.steps[s]|)
    {
    }
  }

  // ------------------------------------------------------------- one step, without patches

  // Where a step ends.
  lemma StepEnds(c: Code, s: nat, k: nat)
    requires CodeOk(c) && s < |c.steps| && k < |c.steps[s]|
    ensures AtOf(c.at, s, k + 1) == AtOf(c.at, s, k) + Size(c.steps[s][k], AtOf(c.at, s, k), CutAt(c, s, k))
    ensures 0 <= CutAt(c, s, k) <= 4 && AtOf(c.at, s, k) <= AtOf(c.at, s, k + 1)
  {
    hide Built;
    hide FixedTo;
    assert StepLaid(c.at, c.steps, c.buf, s, k);
    SizeBounds(c.steps[s][k], c.at[s][k], CutAt(c, s, k));
  }

  // What the words of a step are for the third pass.
  lemma FinalWords(c: Code, s: nat, k: nat)
    requires CodeOk(c) && s < |c.steps| && k < |c.steps[s]|
    ensures var x, p := c.steps[s][k], StepPos(c.steps, s, k);
      && (x.Start? ==> p in c.buf && c.buf[p] == x.p)
      && (x.Act? && (x.act.Value? || x.act.Space?) ==> p in c.buf && c.buf[p] == x.n)
      && (IsDef(x) ==> p in c.buf && c.buf[p] == AtOf(c.at, s, k))
      && (IsRel(x) ==> p + 1 in c.buf && c.buf[p + 1] == CutAt(c, s, k))
      && (IsRef(x) && p in c.t.target ==>
            p in c.buf && c.buf[p] == c.t.target[p] > 0 && c.buf[p] in c.buf && c.buf[c.buf[p]] == LabelOffset(c, p))
      && (Stray(c.what, c.t, p) ==>
            p in c.buf && c.buf[p] >= 0 && c.buf[p] in c.buf && c.buf[c.buf[p]] == StrayValue(c.what, c.t, p))
      && (IsRef(x) && p !in c.t.target && !Stray(c.what, c.t, p) ==>
            p in c.buf && RefLab(x).LG? && RefLab(x).n >= 10 && c.buf[p] == 0 - RefLab(x).n && CutAt(c, s, k) == 0)
  {
    hide Walks;
    hide Laid;
    hide Distance;
    CutIsDecision(c, s, k);
    StepWords(c.what, c.steps, s, k);
    var x, p := c.steps[s][k], StepPos(c.steps, s, k);
    assert p in c.what ==> FixedWord(c.buf[p], p, c.what[p], c.acts, c.steps, c.what, c.t, c.at, |c.steps|, 0);
    if IsRef(x) && p in c.t.target {
      var l := c.t.target[p];
      HomeStep(c.what, c.steps, l);
      assert HomeOk(l, c.what[l], c.steps);
      assert FixedWord(c.buf[l], l, c.what[l], c.acts, c.steps, c.what, c.t, c.at, |c.steps|, 0);
    } else if Stray(c.what, c.t, p) {
      var w := StrayWord(c.what, c.t, p);
      assert FixedWord(c.buf[w], w, c.what[w], c.acts, c.steps, c.what, c.t, c.at, |c.steps|, 0);
      assert Used(w, c.steps);
    }
  }

  // The offset of the label that the reference at p has.
  function LabelOffset(c: Code, p: Pos): int {
    if HasLabel(c.what, c.t, p) then
      var l := c.what[c.t.target[p]];
      AtOf(c.at, l.s, l.k)
    else 0
  }

  // ------------------------------------------------------------------------ globals

  // The addresses of the globals once all steps before step k of section `sec` are emitted.
  function GlobalsAt(c: Code, sec: nat, k: nat): (g: seq<int>)
    requires sec <= |c.steps| && (if sec < |c.steps| then k <= |c.steps[sec]| else k == 0)
    ensures |g| == |c.globals|
    decreases sec, k
  {
    if k > 0 then
      var g, x := GlobalsAt(c, sec, k - 1), c.steps[sec][k - 1];
      if x.Act? && x.act.LabelLG? && 10 <= x.act.n < |g| then g[x.act.n := c.base + AtOf(c.at, sec, k - 1)] else g
    else if sec > 0 then GlobalsAt(c, sec - 1, |c.steps[sec - 1]|)
    else c.globals
  }

  predicate Defines(x: Step, idx: nat) {
    x.Act? && x.act.LabelLG? && x.act.n == idx
  }

  // A global that is not defined here keeps its address.
  lemma {:induction false} GlobalKept(c: Code, sec: nat, k: nat, idx: nat)
    requires sec <= |c.steps| && (if sec < |c.steps| then k <= |c.steps[sec]| else k == 0) && idx < |c.globals|
    requires forall s, j :: 0 <= s < |c.steps| && 0 <= j < |c.steps[s]| ==> !Defines(c.steps[s][j], idx)
    ensures GlobalsAt(c, sec, k)[idx] == c.globals[idx]
    decreases sec, k
  {
    if k > 0 {
      GlobalKept(c, sec, k - 1, idx);
      assert !Defines(c.steps[sec][k - 1], idx);
    } else if sec > 0 {
      GlobalKept(c, sec - 1, |c.steps[sec - 1]|, idx);
    }
  }

  // Of the steps before step k of section `sec`, step j of section s is the last one that defines the global.
  predicate LastDefines(c: Code, sec: nat, k: nat, idx: nat, s: nat, j: nat) {
    && s < |c.steps| && j < |c.steps[s]| && Defines(c.steps[s][j], idx) && Before(s, j, sec, k)
    && forall s', j' :: 0 <= s' < |c.steps| && 0 <= j' < |c.steps[s']| && Defines(c.steps[s'][j'], idx) ==>
         !(Before(s, j, s', j') && Before(s', j', sec, k))
  }

  // A global gets the address of the last of its labels in the code.
  lemma {:induction false} GlobalDefined(c: Code, sec: nat, k: nat, s: nat, j: nat, idx: nat)
    requires sec <= |c.steps| && (if sec < |c.steps| then k <= |c.steps[sec]| else k == 0) && 10 <= idx < |c.globals|
    requires LastDefines(c, sec, k, idx, s, j)
    ensures GlobalsAt(c, sec, k)[idx] == c.base + AtOf(c.at, s, j)
    decreases sec, k
  {
    if k > 0 {
      if s != sec || j != k - 1 {
        GlobalDefined(c, sec, k - 1, s, j, idx);
        assert !Defines(c.steps[sec][k - 1], idx);
      }
    } else {
      GlobalDefined(c, sec - 1, |c.steps[sec - 1]|, s, j, idx);
    }
  }

  // References that are not resolved wait for globals that are not defined here.
  ghost predicate Waiting(what: Memory, t: Table) {
    forall p :: p in what && what[p].LinkTo? && p !in t.target ==> p in Pending(t, what[p].lab)
  }

  lemma ExternUndefined(c: Code, s: nat, k: nat, sec: nat, j: nat)
    requires CodeOk(c) && DefsOk(c.what, c.t) && Waiting(c.what, c.t)
    requires s < |c.steps| && k < |c.steps[s]| && IsRef(c.steps[s][k]) && StepPos(c.steps, s, k) !in c.t.target
    requires sec <= |c.steps| && (if sec < |c.steps| then j <= |c.steps[sec]| else j == 0)
    requires RefLab(c.steps[s][k]).LG? && 10 <= RefLab(c.steps[s][k]).n < |c.globals|
    ensures GlobalsAt(c, sec, j)[RefLab(c.steps[s][k]).n] == Extern(c, s, k)
  {
    hide Walks;
    hide Laid;
    hide FixedTo;
    var l := RefLab(c.steps[s][k]);
    StepWords(c.what, c.steps, s, k);
    forall s', j' | 0 <= s' < |c.steps| && 0 <= j' < |c.steps[s']| ensures !Defines(c.steps[s'][j'], l.n) {
      StepWords(c.what, c.steps, s', j');
    }
    GlobalKept(c, sec, j, l.n);
  }

  // The bytes of a reference lead to offset `target`: a branch by its distance, anything else by the
  // address. A branch that was shrunk has a short opcode, and its distance fits into one byte.
  ghost predicate LeadsTo(c: Code, out: seq<int>, s: nat, k: nat, target: int)
    requires s < |c.steps| && k < |c.steps[s]|
  {
    var x, e := c.steps[s][k], AtOf(c.at, s, k + 1);
    && 0 <= e <= |out|
    && (IsRel(x) && CutAt(c, s, k) == 0 ==> 4 <= e && FromLE(out[e - 4..e]) == (target - e) % 0x1_0000_0000)
    && (IsRel(x) && CutAt(c, s, k) > 0 ==>
          2 <= e && -128 <= target - e <= 127 && e + Signed(out[e - 1]) == target)
    && (IsRel(x) && CutAt(c, s, k) == 3 ==> Opcode(c.acts, x.q) == 0xe9 && out[e - 2] == 0xeb)
    && (IsRel(x) && CutAt(c, s, k) == 4 ==>
          0x80 <= Opcode(c.acts, x.q) < 0x90 && out[e - 2] == Opcode(c.acts, x.q) - 0x10)
    && (IsImmRef(x) ==> 4 <= e && FromLE(out[e - 4..e]) == (c.base + target) % 0x1_0000_0000)
  }

  // The code is right: every branch to a label of this code lands on it, and every address is its address.
  lemma BranchLands(c: Code, out: seq<int>, s: nat, k: nat)
    requires CodeOk(c) && Image(c, out, |c.steps|, 0) && |out| == c.size
    requires s < |c.steps| && k < |c.steps[s]| && IsRef(c.steps[s][k]) && StepPos(c.steps, s, k) in c.t.target
    ensures var p := StepPos(c.steps, s, k);
      && HasLabel(c.what, c.t, p)
      && var d := c.what[c.t.target[p]];
      && d.s < |c.steps| && d.k < |c.steps[d.s]| && IsDef(c.steps[d.s][d.k])
      && DefLab(c.steps[d.s][d.k]) == RefLab(c.steps[s][k])
      && LeadsTo(c, out, s, k, AtOf(c.at, d.s, d.k))
  {
    hide CodeOk;
    hide ByteNow;
    var p := StepPos(c.steps, s, k);
    TargetHere(c, s, k);
    StepEnds(c, s, k);
    CutIsDecision(c, s, k);
    assert Emits(c, out, s, k, |c.steps[s]|);
    ReadBack(RefValue(c, s, k));
    if CutAt(c, s, k) > 0 {
      Reaches(c, s, k);
      SignedByte(RefValue(c, s, k));
      OpcodeHere(c, out, s, k);
    }
  }

  lemma TargetHere(c: Code, s: nat, k: nat)
    requires CodeOk(c) && s < |c.steps| && k < |c.steps[s]| && IsRef(c.steps[s][k]) &&
      StepPos(c.steps, s, k) in c.t.target
    ensures var p := StepPos(c.steps, s, k);
      && HasLabel(c.what, c.t, p)
      && var d := c.what[c.t.target[p]];
      d.s < |c.steps| && d.k < |c.steps[d.s]| && IsDef(c.steps[d.s][d.k]) &&
        DefLab(c.steps[d.s][d.k]) == RefLab(c.steps[s][k])
  {
    hide Walks;
    hide Fixed;
    StepWords(c.what, c.steps, s, k);
    HomeStep(c.what, c.steps, c.t.target[StepPos(c.steps, s, k)]);
    assert HomeOk(c.t.target[StepPos(c.steps, s, k)], c.what[c.t.target[StepPos(c.steps, s, k)]], c.steps);
  }

  lemma Reaches(c: Code, s: nat, k: nat)
    requires CodeOk(c) && s < |c.steps| && k < |c.steps[s]| && IsRel(c.steps[s][k]) &&
      StepPos(c.steps, s, k) in c.t.target
    requires CutAt(c, s, k) > 0
    ensures -128 <= RefValue(c, s, k) <= 127
  {
    TargetHere(c, s, k);
    ShortBranches(c.buf, c.acts, c.steps, c.what, c.t, c.at, c.size, s, k);
    hide Built;
  }

  // The opcode of a branch that was shrunk.
  lemma OpcodeHere(c: Code, out: seq<int>, s: nat, k: nat)
    requires CodeOk(c) && Image(c, out, |c.steps|, 0) && s < |c.steps| && k < |c.steps[s]| && IsRel(c.steps[s][k])
    requires CutAt(c, s, k) > 0
    ensures var e, op := AtOf(c.at, s, k + 1), Opcode(c.acts, c.steps[s][k].q);
      2 <= e <= |out| && out[e - 2] == if CutAt(c, s, k) == 3 then 0xeb else op - 0x10
    ensures CutAt(c, s, k) == Shrink(Opcode(c.acts, c.steps[s][k].q))
  {
    hide CodeOk;
    PatchedSteps(c, s, k);
    CutIsDecision(c, s, k);
    StepEnds(c, s, k);
    assert Emits(c, out, s, k, |c.steps[s]|);
    assert Emits(c, out, s, k - 1, |c.steps[s]|);
    if CutAt(c, s, k) == 4 {
      assert Emits(c, out, s, k - 2, |c.steps[s]|);
      assert ByteNow(c, s, k - 2, |c.steps[s]|) == Is((c.steps[s][k - 1].act.b - 0x10) % 256);
    } else {
      assert ByteNow(c, s, k - 1, |c.steps[s]|) == Is(0xeb);
    }
  }
}
