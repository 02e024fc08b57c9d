/** The bin maps: a bit for each of 32 bins, set while the bin holds chunks. */
module AllocMaps {

  type BinMap = bv32

  const NBITS := 32

  // ------------------------------------------------------------------- single bits

  predicate Single(x: BinMap) {
    x != 0 && x & (x - 1) == 0
  }

  predicate Below(x: BinMap, y: BinMap) {
    x < y
  }

  predicate Meets(m: BinMap, x: BinMap) {
    m & x != 0
  }

  function With(m: BinMap, x: BinMap): BinMap {
    m | x
  }

  function Without(m: BinMap, x: BinMap): BinMap {
    m & !x
  }

  function Shifted(x: BinMap): BinMap {
    x << 1
  }

  function ShiftedDown(x: BinMap): BinMap {
    x >> 1
  }

  // left_bits.
  function LeftBits(x: BinMap): BinMap {
    (x << 1) | (!(x << 1) + 1)
  }

  // The bits of m to the left of the single bit x.
  function LeftPart(m: BinMap, x: BinMap): BinMap {
    LeftBits(x) & m
  }

  // The bits of m to the right of it.
  function RightPart(m: BinMap, x: BinMap): BinMap {
    m & (x - 1)
  }

  // The same on the words themselves.
  lemma Words(m: bv32, x: bv32, y: bv32)
    requires x != 0 && x & (x - 1) == 0 && y != 0 && y & (y - 1) == 0
    ensures (m | x) & y != 0 <==> m & y != 0 || x == y
    ensures (m & !x) & y != 0 <==> m & y != 0 && x != y
  {
  }

  lemma CommonWords(m: bv32, n: bv32, y: bv32)
    requires y != 0 && y & (y - 1) == 0
    ensures (m & n) & y != 0 <==> m & y != 0 && n & y != 0
  {
  }

  lemma LeftWords(x: bv32, y: bv32)
    requires x != 0 && x & (x - 1) == 0 && y != 0 && y & (y - 1) == 0
    ensures ((x << 1) | (!(x << 1) + 1)) & y != 0 <==> x < y
  {
  }

  lemma WithBit(m: BinMap, x: BinMap, y: BinMap)
    requires Single(x) && Single(y)
    ensures Meets(With(m, x), y) <==> Meets(m, y) || x == y
    ensures Meets(Without(m, x), y) <==> Meets(m, y) && x != y
  {
    Words(m, x, y);
  }

  lemma LeftBitsMeet(x: BinMap, y: BinMap)
    requires Single(x) && Single(y)
    ensures Meets(LeftBits(x), y) <==> Below(x, y)
  {
    LeftWords(x, y);
  }

  lemma LeftOfBit(m: BinMap, x: BinMap, y: BinMap)
    requires Single(x) && Single(y)
    ensures Meets(LeftPart(m, x), y) <==> Meets(m, y) && Below(x, y)
  {
    hide LeftBits;
    LeftBitsMeet(x, y);
    CommonWords(LeftBits(x), m, y);
  }

  lemma ShiftWords(m: bv32, x: bv32)
    requires x != 0 && x & (x - 1) == 0 && x << 1 != 0
    ensures (m >> 1) & x != 0 <==> m & (x << 1) != 0
    ensures (m << 1) & (x << 1) != 0 <==> m & x != 0
  {
  }

  lemma ShiftMeets(m: BinMap, x: BinMap)
    requires Single(x) && Shifted(x) != 0
    ensures Meets(ShiftedDown(m), x) <==> Meets(m, Shifted(x))
    ensures Meets(Shifted(m), Shifted(x)) <==> Meets(m, x)
  {
    ShiftWords(m, x);
  }

  lemma EndWords(m: bv32)
    ensures (m >> 1) & 0x8000_0000 == 0 && (m << 1) & 1 == 0
    ensures m & 3 != 0 <==> m & 1 != 0 || m & (1 << 1) != 0
  {
  }

  lemma EndMeets(m: BinMap)
    ensures !Meets(ShiftedDown(m), 0x8000_0000) && !Meets(Shifted(m), 1)
  {
    EndWords(m);
  }

  lemma NextRight(m: BinMap, x: BinMap)
    requires Single(x) && RightPart(m, x) == 0 && !Meets(m, x)
    ensures RightPart(m, Shifted(x)) == 0
  {
  }

  lemma ShiftedUp(x: BinMap)
    requires Single(x) && Shifted(x) != 0
    ensures Single(Shifted(x)) && Below(x, Shifted(x))
  {
  }

  lemma ShiftedZero()
    ensures Shifted(0) == 0 && Single(1)
  {
  }

  function FourShifted(x: BinMap): BinMap {
    Shifted(Shifted(Shifted(Shifted(x))))
  }

  lemma ShiftedOften()
    ensures FourShifted(FourShifted(FourShifted(FourShifted(1)))) == 0x1_0000
    ensures FourShifted(FourShifted(FourShifted(0x1_0000))) == 0x1000_0000
    ensures Shifted(Shifted(Shifted(0x1000_0000))) == 0x8000_0000
  {
  }

  // ------------------------------------------------------------------- the bit of a bin

  // idx2bit.
  function Bit(i: nat): BinMap
    requires i < NBITS
  {
    if i == 0 then 1 else Shifted(Bit(i - 1))
  }

  lemma FourOn(i: nat)
    requires i + 4 < NBITS
    ensures Bit(i + 4) == FourShifted(Bit(i))
  {
    hide Shifted;
    assert Bit(i + 2) == Shifted(Bit(i + 1)) && Bit(i + 3) == Shifted(Bit(i + 2));
  }

  lemma TopBit()
    ensures Bit(31) == 0x8000_0000
  {
    hide Shifted, FourShifted;
    FourOn(0);
    FourOn(4);
    FourOn(8);
    FourOn(12);
    FourOn(16);
    FourOn(20);
    FourOn(24);
    assert Bit(30) == Shifted(Bit(29));
    ShiftedOften();
  }

  lemma {:induction false} ZeroStays(i: nat, j: nat)
    requires i <= j < NBITS && Bit(i) == 0
    ensures Bit(j) == 0
  {
    hide Shifted;
    ShiftedZero();
    if i < j {
      ZeroStays(i, j - 1);
    }
  }

  lemma {:induction false} BitSingle(i: nat)
    requires i < NBITS
    ensures Single(Bit(i)) && Bit(i) != 0
  {
    hide Single, Shifted;
    if i == 0 {
      ShiftedZero();
    } else {
      BitSingle(i - 1);
      if Bit(i) == 0 {
        ZeroStays(i, 31);
        TopBit();
      }
      ShiftedUp(Bit(i - 1));
    }
  }

  lemma {:induction false} BitsOrdered(i: nat, j: nat)
    requires i < j < NBITS
    ensures Below(Bit(i), Bit(j))
  {
    hide Single, Shifted, Below;
    BitSingle(j - 1);
    BitSingle(j);
    ShiftedUp(Bit(j - 1));
    if i < j - 1 {
      BitsOrdered(i, j - 1);
      BelowBelow(Bit(i), Bit(j - 1), Bit(j));
    }
  }

  lemma BelowBelow(x: BinMap, y: BinMap, z: BinMap)
    requires Below(x, y) && Below(y, z)
    ensures Below(x, z)
  {
  }

  lemma BelowOnce(x: BinMap, y: BinMap)
    requires Below(x, y)
    ensures !Below(y, x) && x != y
  {
  }

  lemma NotBelow(x: BinMap)
    ensures !Below(x, x)
  {
  }

  lemma BitsApart(i: nat, j: nat)
    requires i < NBITS && j < NBITS
    ensures Single(Bit(i)) && Single(Bit(j))
    ensures Bit(i) == Bit(j) <==> i == j
    ensures Below(Bit(i), Bit(j)) <==> i < j
  {
    hide Single, Bit, Below;
    BitSingle(i);
    BitSingle(j);
    if i < j {
      BitsOrdered(i, j);
      BelowOnce(Bit(i), Bit(j));
    } else if j < i {
      BitsOrdered(j, i);
      BelowOnce(Bit(j), Bit(i));
    } else {
      NotBelow(Bit(i));
    }
  }

  // ------------------------------------------------------------------- the maps

  // smallmap_is_marked and treemap_is_marked.
  predicate IsMarked(m: BinMap, i: nat) {
    i < NBITS && Meets(m, Bit(i))
  }

  function Mark(m: BinMap, i: nat): BinMap
    requires i < NBITS
  {
    With(m, Bit(i))
  }

  function Clear(m: BinMap, i: nat): BinMap
    requires i < NBITS
  {
    Without(m, Bit(i))
  }

  lemma MarkExactly(m: BinMap, i: nat, j: nat)
    requires i < NBITS
    ensures IsMarked(Mark(m, i), j) <==> IsMarked(m, j) || j == i
    ensures IsMarked(Clear(m, i), j) <==> IsMarked(m, j) && j != i
  {
    hide Single, Bit, Meets, With, Without;
    if j < NBITS {
      BitsApart(i, j);
      WithBit(m, Bit(i), Bit(j));
    }
  }

  /** Masking with left_bits(idx2bit(i)) keeps exactly the bins above i. */
  lemma LeftBitsExactly(m: BinMap, i: nat, j: nat)
    requires i < NBITS
    ensures IsMarked(LeftPart(m, Bit(i)), j) <==> IsMarked(m, j) && j > i
  {
    hide Single, Bit, Meets, LeftPart, Below;
    if j < NBITS {
      BitsApart(i, j);
      LeftOfBit(m, Bit(i), Bit(j));
    }
  }

  lemma {:induction false} ClearBelow(m: BinMap, i: nat)
    requires i < NBITS && forall j :: 0 <= j < i ==> !IsMarked(m, j)
    ensures RightPart(m, Bit(i)) == 0
  {
    hide Single, Meets, RightPart, Shifted;
    if i == 0 {
      NothingRight(m);
    } else {
      BitSingle(i - 1);
      ClearBelow(m, i - 1);
      assert !IsMarked(m, i - 1);
      NextRight(m, Bit(i - 1));
    }
  }

  lemma NothingRight(m: BinMap)
    ensures RightPart(m, 1) == 0
  {
  }

  lemma OnlyTop(m: BinMap)
    requires RightPart(m, 0x8000_0000) == 0 && !Meets(m, 0x8000_0000)
    ensures m == 0
  {
  }

  lemma NoneMeets(x: BinMap)
    ensures !Meets(0, x)
  {
  }

  // A map is zero just if no bin is marked.
  lemma ZeroExactly(m: BinMap)
    ensures m == 0 <==> forall j: nat :: !IsMarked(m, j)
  {
    hide Bit, Meets, RightPart;
    if m == 0 {
      forall j: nat ensures !IsMarked(m, j) {
        if j < NBITS {
          NoneMeets(Bit(j));
        }
      }
    } else if forall j: nat :: !IsMarked(m, j) {
      TopBit();
      assert !IsMarked(m, 31);
      ClearBelow(m, 31);
      OnlyTop(m);
    }
  }

  // lj_ffs: the lowest bit that is set.
  method LowestBit(m: BinMap) returns (i: nat)
    requires m != 0
    ensures IsMarked(m, i) && forall j: nat :: IsMarked(m, j) ==> i <= j
  {
    hide IsMarked;
    ZeroExactly(m);
    ghost var some: nat :| IsMarked(m, some);
    i := 0;
    while !IsMarked(m, i)
      invariant forall j: nat :: IsMarked(m, j) ==> i <= j
      decreases some - i
    {
      i := i + 1;
    }
  }

  // left_bits(idx2bit(idx)) & m, and its lowest bit.
  method LowestAbove(m: BinMap, idx: nat) returns (found: bool, i: nat)
    requires idx < NBITS
    ensures found ==> IsMarked(m, i) && i > idx && forall j: nat :: IsMarked(m, j) && j > idx ==> i <= j
    ensures !found ==> forall j: nat :: IsMarked(m, j) ==> j <= idx
  {
    hide IsMarked, LeftPart, Bit;
    var left := LeftPart(m, Bit(idx));
    forall j: nat ensures IsMarked(left, j) <==> IsMarked(m, j) && j > idx {
      LeftBitsExactly(m, idx, j);
    }
    found, i := left != 0, 0;
    if found {
      i := LowestBit(left);
    } else {
      ZeroExactly(left);
    }
  }

  // ------------------------------------------------------------------- shifting by a bin number

  // m >> n and m << n.
  function Down(m: BinMap, n: nat): BinMap {
    if n == 0 then m else ShiftedDown(Down(m, n - 1))
  }

  function Up(m: BinMap, n: nat): BinMap {
    if n == 0 then m else Shifted(Up(m, n - 1))
  }

  lemma OneStep(m: BinMap, j: nat)
    ensures IsMarked(ShiftedDown(m), j) <==> IsMarked(m, j + 1)
    ensures IsMarked(Shifted(m), j) <==> 0 < j < NBITS && IsMarked(m, j - 1)
  {
    hide Single, Meets, ShiftedDown, Shifted;
    TopBit();
    EndMeets(m);
    if j + 1 < NBITS {
      BitSingle(j);
      BitSingle(j + 1);
      ShiftMeets(m, Bit(j));
    }
    if 0 < j < NBITS {
      BitSingle(j - 1);
      BitSingle(j);
      ShiftMeets(m, Bit(j - 1));
    }
  }

  lemma {:induction false} ShiftExactly(m: BinMap, n: nat, j: nat)
    ensures IsMarked(Down(m, n), j) <==> IsMarked(m, j + n)
    ensures IsMarked(Up(m, n), j) <==> n <= j < NBITS && IsMarked(m, j - n)
  {
    hide IsMarked, ShiftedDown, Shifted;
    if n == 0 {
      OnlyBelow(m, j);
    } else {
      OneStep(Down(m, n - 1), j);
      OneStep(Up(m, n - 1), j);
      ShiftExactly(m, n - 1, j + 1);
      if j > 0 {
        ShiftExactly(m, n - 1, j - 1);
      }
    }
  }

  lemma OnlyBelow(m: BinMap, j: nat)
    ensures IsMarked(m, j) ==> j < NBITS
  {
    hide Bit, Meets;
  }

  // (m & 3) != 0, and ~m & 1.
  predicate FirstTwo(m: BinMap) {
    m & 3 != 0
  }

  function NotFirst(m: BinMap): nat {
    if m & 1 == 0 then 1 else 0
  }

  lemma FirstTwoMeet(m: BinMap)
    ensures FirstTwo(m) <==> Meets(m, 1) || Meets(m, Shifted(1))
    ensures NotFirst(m) == if Meets(m, 1) then 0 else 1
  {
    EndWords(m);
  }

  lemma FirstTwoExactly(m: BinMap)
    ensures FirstTwo(m) <==> IsMarked(m, 0) || IsMarked(m, 1)
    ensures NotFirst(m) == if IsMarked(m, 0) then 0 else 1
  {
    hide FirstTwo, NotFirst, Meets, Shifted;
    FirstTwoMeet(m);
    assert Bit(1) == Shifted(1);
  }

  // A small request for bin idx: what `smallmap` says from there on.
  lemma SmallBits(smallmap: BinMap, idx: nat)
    ensures var bits := Down(smallmap, idx);
      && (FirstTwo(bits) <==> IsMarked(smallmap, idx) || IsMarked(smallmap, idx + 1))
      && (NotFirst(bits) == if IsMarked(smallmap, idx) then 0 else 1)
      && (bits == 0 <==> forall j: nat :: IsMarked(smallmap, j) ==> j < idx)
  {
    hide IsMarked, Down, FirstTwo, NotFirst;
    var bits := Down(smallmap, idx);
    FirstTwoExactly(bits);
    ShiftExactly(smallmap, idx, 0);
    ShiftExactly(smallmap, idx, 1);
    forall j: nat ensures IsMarked(bits, j) <==> IsMarked(smallmap, j + idx) {
      ShiftExactly(smallmap, idx, j);
    }
    forall j: nat | j >= idx ensures IsMarked(smallmap, j) <==> IsMarked(bits, j - idx) {
      ShiftExactly(smallmap, idx, j - idx);
    }
    ZeroExactly(bits);
  }

  // (smallbits << idx) & left_bits(idx2bit(idx)), and its lowest bit.
  method NextSmall(smallbits: BinMap, idx: nat, ghost smallmap: BinMap) returns (i: nat)
    requires smallbits == Down(smallmap, idx) && smallbits != 0 && idx < NBITS && !IsMarked(smallmap, idx)
    ensures IsMarked(smallmap, i) && i > idx && forall j: nat :: IsMarked(smallmap, j) && j > idx ==> i <= j
  {
    hide IsMarked, LeftPart, Bit, Up, Down;
    var left := LeftPart(Up(smallbits, idx), Bit(idx));
    forall j: nat ensures IsMarked(left, j) <==> IsMarked(smallmap, j) && j > idx {
      LeftBitsExactly(Up(smallbits, idx), idx, j);
      ShiftExactly(smallbits, idx, j);
      OnlyBelow(smallmap, j);
      if j >= idx {
        ShiftExactly(smallmap, idx, j - idx);
      }
    }
    SmallBits(smallmap, idx);
    ghost var some: nat :| IsMarked(smallmap, some) && some >= idx;
    assert IsMarked(left, some);
    ZeroExactly(left);
    i := LowestBit(left);
  }
}
