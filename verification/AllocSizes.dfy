/** Sizes of chunks on a 64 bit machine, and the bins that hold free chunks of each size. */
module AllocSizes {
  import opened Powers

  const SIZE_T_SIZE := 8
  const CHUNK_OVERHEAD := 8
  const MIN_CHUNK_SIZE := 32
  const TOP_FOOT_SIZE := 64
  const NSMALLBINS := 32
  const NTREEBINS := 32
  const TREEBIN_SHIFT := 8
  const MIN_LARGE_SIZE := 256
  const TWO32: nat := 0x1_0000_0000
  const TWO63: nat := 0x8000_0000_0000_0000
  const TWO64: nat := 0x1_0000_0000_0000_0000
  const MAX_REQUEST: nat := TWO64 - 128      // (~MIN_CHUNK_SIZE + 1) << 2
  const MIN_REQUEST := 23                     // MIN_CHUNK_SIZE - CHUNK_OVERHEAD - 1
  const MAX_SMALL_REQUEST := 240              // MAX_SMALL_SIZE - CHUNK_ALIGN_MASK - CHUNK_OVERHEAD

  // pad_request: room for the head, rounded up to a multiple of 8.
  function PadRequest(req: nat): nat {
    (req + CHUNK_OVERHEAD + 7) / 8 * 8
  }

  function Request2Size(req: nat): (nb: nat)
    ensures nb % 8 == 0 && nb >= MIN_CHUNK_SIZE && nb >= req + CHUNK_OVERHEAD
    ensures nb > MIN_CHUNK_SIZE ==> nb < req + CHUNK_OVERHEAD + 8
  {
    if req < MIN_REQUEST then MIN_CHUNK_SIZE else PadRequest(req)
  }

  predicate IsSmall(size: nat) {
    size / 8 < NSMALLBINS
  }

  // ------------------------------------------------------------------- tree bins

  // The bit of n of this power of two.
  function HalfBit(n: nat, p: nat): (b: nat)
    requires p > 0
    ensures b <= 1
  {
    n / p % 2
  }

  // compute_tree_index; the shifted size is cut to 32 bits.
  function TreeIndex(size: nat): (i: nat)
    ensures i < NTREEBINS
  {
    var x := size / 256 % TWO32;
    if x == 0 then 0
    else if x > 0xFFFF then NTREEBINS - 1
    else
      var k := Fls(x);
      FlsAtMost15(x);
      2 * k + HalfBit(size, Pow2(k + TREEBIN_SHIFT - 1))
  }

  // minsize_for_tree_index.
  function MinSize(i: nat): nat {
    Pow2(i / 2 + TREEBIN_SHIFT) + i % 2 * Pow2(i / 2 + TREEBIN_SHIFT - 1)
  }

  // The size belongs to bin i.
  predicate InBin(i: nat, size: nat) {
    MinSize(i) <= size && (i < NTREEBINS - 1 ==> size < MinSize(i + 1))
  }

  lemma FlsAtMost15(x: nat)
    requires 0 < x <= 0xFFFF
    ensures Fls(x) <= 15
  {
    Pow2Of16();
    Pow2Reflects(Fls(x), 16);
  }

  lemma Pow2Of16()
    ensures Pow2(7) == 128 && Pow2(8) == 256 && Pow2(16) == 0x10000
  {
    Pow2Add(8, 8);
  }

  lemma {:induction false} MinSizeStep(i: nat)
    ensures MinSize(i + 1) == MinSize(i) + Pow2(i / 2 + TREEBIN_SHIFT - 1)
  {
    assert Pow2(i / 2 + TREEBIN_SHIFT) == 2 * Pow2(i / 2 + TREEBIN_SHIFT - 1);
    if i % 2 == 1 {
      assert Pow2((i + 1) / 2 + TREEBIN_SHIFT) == 2 * Pow2(i / 2 + TREEBIN_SHIFT);
    }
  }

  lemma {:induction false} MinSizeMonotone(i: nat, j: nat)
    requires i <= j
    ensures MinSize(i) <= MinSize(j)
  {
    if i < j {
      MinSizeMonotone(i, j - 1);
      MinSizeStep(j - 1);
    }
  }

  // A size belongs to one bin only, and larger sizes to the same bin or to later ones.
  lemma BinsOrdered(i: nat, a: nat, j: nat, b: nat)
    requires i < NTREEBINS && j < NTREEBINS && InBin(i, a) && InBin(j, b) && a <= b
    ensures i <= j
  {
    if j < i {
      MinSizeMonotone(j + 1, i);
    }
  }

  lemma MinSizeOfLast()
    ensures MinSize(NTREEBINS - 1) == 0xC0_0000 && MinSize(1) == 384
  {
    Pow2Of16();
    Pow2Add(16, 7);
  }

  lemma CutSize(size: nat, low: nat)
    requires size % 0x100_0000_0000 == low
    ensures size / 256 % TWO32 == low / 256
  {
    var h := size / 0x100_0000_0000;
    assert size == 0x100_0000_0000 * h + low;
    assert size / 256 == TWO32 * h + low / 256;
    QuotientUnique(size / 256, TWO32, h, low / 256);
  }

  // The value cut to 40 bits belongs to the bin that is picked.
  lemma IndexOfLow(size: nat, low: nat)
    requires low >= 256 && size % 0x100_0000_0000 == low
    ensures InBin(TreeIndex(size), low)
  {
    var x := size / 256 % TWO32;
    CutSize(size, low);
    if x > 0xFFFF {
      MinSizeOfLast();
    } else {
      IndexInRange(size, low, x);
    }
  }

  lemma IndexInRange(size: nat, low: nat, x: nat)
    requires low >= 256 && size % 0x100_0000_0000 == low
    requires x == low / 256 == size / 256 % TWO32 && x <= 0xFFFF
    ensures InBin(TreeIndex(size), low)
  {
    hide TreeIndex;
    hide InBin;
    hide MinSize;
    if x != 0 {
      var k := Fls(x);
      FlsAtMost15(x);
      SizeBits(size, low, k);
      MinSizePair(k);
      MinSizeStep(2 * k + 1);
      IndexIs(size, x, k);
      ChosenBin(low, k, Pow2(k + TREEBIN_SHIFT - 1), TreeIndex(size));
    }
  }

  lemma IndexIs(size: nat, x: nat, k: nat)
    requires x == size / 256 % TWO32 && 0 < x <= 0xFFFF && k == Fls(x) <= 15
    ensures TreeIndex(size) == 2 * k + HalfBit(size, Pow2(k + TREEBIN_SHIFT - 1))
  {
    hide HalfBit;
  }

  lemma ChosenBin(low: nat, k: nat, p: nat, i: nat)
    requires 2 * p <= low < 4 * p && i == 2 * k + (if low < 3 * p then 0 else 1)
    requires MinSize(2 * k) == 2 * p && MinSize(2 * k + 1) == 3 * p && MinSize(2 * k + 2) == 4 * p
    ensures InBin(i, low)
  {
    hide MinSize;
    if low >= 3 * p {
      assert i + 1 == 2 * k + 2;
    }
  }

  lemma MinSizePair(k: nat)
    ensures var p := Pow2(k + TREEBIN_SHIFT - 1);
      MinSize(2 * k) == 2 * p && MinSize(2 * k + 1) == 3 * p && MinSize(2 * k + 2) == 4 * p
  {
    var p := Pow2(k + TREEBIN_SHIFT - 1);
    assert (2 * k) / 2 == k && (2 * k + 1) / 2 == k && (2 * k) % 2 == 0 && (2 * k + 1) % 2 == 1;
    assert (2 * k + 2) / 2 == k + 1 && (2 * k + 2) % 2 == 0;
    assert Pow2(k + TREEBIN_SHIFT) == 2 * p;
    assert Pow2(k + 1 + TREEBIN_SHIFT) == 2 * Pow2(k + TREEBIN_SHIFT);
  }

  // The bit below the highest one, of a size that agrees with `low` in its low 40 bits.
  lemma SizeBits(size: nat, low: nat, k: nat)
    requires size % 0x100_0000_0000 == low && k <= 15
    requires Pow2(k) <= low / 256 < 2 * Pow2(k)
    ensures var p := Pow2(k + TREEBIN_SHIFT - 1);
      2 * p <= low < 4 * p && HalfBit(size, p) == if low < 3 * p then 0 else 1
  {
    var p, m, h := Pow2(k + 7), Pow2(32 - k), size / 0x100_0000_0000;
    Pow2Of16();
    Pow2Add(k, 7);
    FortyBits(k);
    var q := if low < 3 * p then 2 else 3;
    assert size == 0x100_0000_0000 * h + low;
    HighPart(p, m, h);
    MulAdd(2 * (m * h), q, p);
    QuotientUnique(size, p, 2 * (m * h) + q, low - q * p);
    assert (2 * (m * h) + q) % 2 == q % 2;
  }

  lemma HighPart(p: nat, m: nat, h: nat)
    requires 0x100_0000_0000 == p * (2 * m)
    ensures 0x100_0000_0000 * h == (2 * (m * h)) * p
  {
    MulAssoc(p, 2 * m, h);
    MulAssoc(2, m, h);
  }

  lemma FortyBits(k: nat)
    requires k <= 15
    ensures 0x100_0000_0000 == Pow2(k + 7) * (2 * Pow2(32 - k))
  {
    Pow2Add(k + 7, 33 - k);
    Pow2Of40();
  }

  lemma Pow2Of40()
    ensures Pow2(40) == 0x100_0000_0000
  {
    Pow2Of16();
    Pow2Add(16, 16);
    Pow2Add(32, 8);
  }

  // compute_tree_index puts a large size into its bin if and only if it is below 2^40, or its low 40
  // bits alone already belong to the last bin.
  lemma TreeIndexExact(size: nat)
    requires MIN_LARGE_SIZE <= size
    ensures InBin(TreeIndex(size), size) <==> size < 0x100_0000_0000 || size % 0x100_0000_0000 >= 0xC0_0000
  {
    var low := size % 0x100_0000_0000;
    MinSizeOfLast();
    if size < 0x100_0000_0000 {
      assert low == size;
      IndexOfLow(size, low);
    } else {
      IndexOfHigh(size, low);
    }
  }

  lemma IndexOfHigh(size: nat, low: nat)
    requires size >= 0x100_0000_0000 && size % 0x100_0000_0000 == low
    ensures InBin(TreeIndex(size), size) <==> low >= 0xC0_0000
  {
    var last := NTREEBINS - 1;
    MinSizeOfLast();
    if low < 256 {
      CutSize(size, low);
      assert TreeIndex(size) == 0;
    } else {
      IndexOfLow(size, low);
      if low >= 0xC0_0000 {
        BinsOrdered(last, low, TreeIndex(size), low);
      } else if TreeIndex(size) < last {
        MinSizeMonotone(TreeIndex(size) + 1, last);
      }
    }
  }

  // At 2^40 it names the bin of the smallest sizes.
  lemma TreeIndexWraps()
    ensures TreeIndex(0x100_0000_0000) == 0 && !InBin(0, 0x100_0000_0000)
  {
    TreeIndexExact(0x100_0000_0000);
  }

  lemma TreeIndexRight(size: nat)
    requires MIN_LARGE_SIZE <= size < 0x100_0000_0000
    ensures InBin(TreeIndex(size), size)
  {
    TreeIndexExact(size);
  }

  // ------------------------------------------------- the range of sizes of a bin

  // A bin holds the sizes from BinLo on; the last one is treated as if it held all sizes.
  function BinLo(i: nat): nat {
    if i == NTREEBINS - 1 then 0 else MinSize(i)
  }

  // The sizes of a bin are told apart by this many bits.
  function BinBits(i: nat): nat {
    if i == NTREEBINS - 1 then 64 else i / 2 + TREEBIN_SHIFT - 1
  }

  // leftshift_for_tree_index.
  function LeftShift(i: nat): nat
    requires i < NTREEBINS
  {
    if i == NTREEBINS - 1 then 0 else 63 - (i / 2 + TREEBIN_SHIFT - 2)
  }

  // size << leftshift_for_tree_index(i).
  function SizeBitsFor(i: nat, size: nat): (k: nat)
    requires i < NTREEBINS
    ensures k < TWO64
  {
    size * Pow2(LeftShift(i)) % TWO64
  }

  lemma InBinRange(i: nat, size: nat)
    requires i < NTREEBINS && InBin(i, size) && size < TWO64
    ensures BinLo(i) <= size < BinLo(i) + Pow2(BinBits(i))
  {
    MinSizeStep(i);
    Pow2Of64();
  }

  // The bits of k, from the highest, say how `d` halves an interval of the given width.
  predicate Halves(k: nat, width: nat, d: nat) {
    d < width && k < TWO64 && k * width == d * TWO64
  }

  lemma SizeBitsHalve(i: nat, size: nat)
    requires i < NTREEBINS && BinLo(i) <= size < BinLo(i) + Pow2(BinBits(i)) && size < TWO64
    ensures Halves(SizeBitsFor(i, size), Pow2(BinBits(i)), size - BinLo(i))
  {
    if i < NTREEBINS - 1 {
      var w, f, d, b := Pow2(BinBits(i)), Pow2(LeftShift(i)), size - BinLo(i), 2 + i % 2;
      ShiftFits(i);
      assert MinSize(i) == b * w;
      ShiftOut(size, w, f, d, b);
    } else {
      Pow2Of64();
      assert Pow2(0) == 1 && size * 1 % TWO64 == size;
    }
  }

  lemma ShiftFits(i: nat)
    requires i < NTREEBINS - 1
    ensures Pow2(BinBits(i)) * Pow2(LeftShift(i)) == TWO64
  {
    Pow2Add(i / 2 + TREEBIN_SHIFT - 1, LeftShift(i));
    Pow2Of64();
  }

  lemma ShiftOut(size: nat, w: nat, f: nat, d: nat, b: nat)
    requires w * f == TWO64 && size == b * w + d && d < w
    ensures Halves(size * f % TWO64, w, d)
  {
    MulAdd(b * w, d, f);
    MulAssoc(b, w, f);
    assert f > 0;
    MulStrict(d, w, f);
    QuotientUnique(size * f, TWO64, b, d * f);
    MulAssoc(d, f, w);
  }

  lemma Pow2Of64()
    ensures Pow2(64) == TWO64
  {
    Pow2Of16();
    Pow2Add(16, 16);
    Pow2Add(32, 32);
  }

  // k <<= 1.
  function ShiftLeft(k: nat): (r: nat)
    ensures r < TWO64
  {
    2 * k % TWO64
  }

  // The highest bit says which half; shifting it out says how that half is halved.
  lemma NextHalf(k: nat, width: nat, d: nat)
    requires Halves(k, width, d) && width % 2 == 0
    ensures k >= TWO63 <==> d >= width / 2
    ensures Halves(ShiftLeft(k), width / 2, if k >= TWO63 then d - width / 2 else d)
  {
    var h := width / 2;
    MulAssoc(k, 2, h);
    MulAssoc(2, k, h);
    assert 2 * (k * h) == d * TWO64;
    if k >= TWO63 {
      MulMonotone(TWO63, k, h);
      var t: int := TWO64;
      MulAdd(2 * k, -t, h);
      assert 2 * k % TWO64 == 2 * k - TWO64;
    } else {
      MulStrict(k, TWO63, h);
      assert 2 * k % TWO64 == 2 * k;
    }
  }
}
