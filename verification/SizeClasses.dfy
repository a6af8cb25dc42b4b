// Size arithmetic of the slab allocator: bins, cells and page counts.
module SizeClasses {
  import opened Bits

  const PAGE: nat := 0x1000
  const BIG_BIN: nat := 10
  const NUM_BINS: nat := 11
  const SMALL_HEADER: nat := 16
  const BIG_HEADER: nat := 48
  const WORD_LIMIT: nat := 0x1_0000_0000

  function AdjustBin(bin: nat): nat {
    if bin <= 2 then 0 else if bin - 3 > BIG_BIN then BIG_BIN else bin - 3
  }

  function BinSize(size: nat): nat
    requires size > 0
  {
    AdjustBin(BitLength(size) + if And(size, size - 1) != 0 then 1 else 0)
  }

  // Cells of bin k hold 2^(k+2) bytes: 4 to 2048.
  function CellSize(k: nat): (s: nat)
    ensures s > 0
  {
    Pow2(k + 2)
  }

  // The page behind the header, divided by the cell size with a shift.
  function CellCount(k: nat): nat {
    ShiftRight(PAGE - SMALL_HEADER, k + 2)
  }

  // Pages taken by a fresh big block; the addition wraps at 32 bits.
  function PagesFor(size: nat): nat {
    (size + BIG_HEADER) % 0x1_0000_0000 / 0x1000 + 1
  }

  function BigCapacity(pages: nat): int {
    pages * 0x1000 - BIG_HEADER
  }

  // The exponent the code computes from the leading-zero count and the
  // power-of-two test is the rounded-up binary logarithm.
  lemma CeilingLog(size: nat) returns (e: nat)
    requires size > 0
    ensures BinSize(size) == AdjustBin(e + 1)
    ensures size <= Pow2(e)
    ensures e > 0 ==> Pow2(e - 1) < size
  {
    var n := BitLength(size);
    BitLengthBounds(size);
    PowerOfTwoTest(size);
    e := if And(size, size - 1) != 0 then n else n - 1;
    if e == n - 1 && e > 0 { assert Pow2(e) == 2 * Pow2(e - 1); }
  }

  lemma CeilingLogOrder(size: nat, e: nat, k: nat)
    requires size <= Pow2(e) && (e > 0 ==> Pow2(e - 1) < size)
    ensures size <= Pow2(k) <==> e <= k
  {
    if e <= k { Pow2Monotone(e, k); } else { Pow2Monotone(k, e - 1); }
  }

  // The bin of a request is the smallest one whose cells fit it; requests
  // beyond 2048 bytes, and only those, go to the big bin.
  lemma BinIsSmallestFit(size: nat)
    requires size > 0
    ensures BinSize(size) <= BIG_BIN
    ensures BinSize(size) < BIG_BIN <==> size <= 2048
    ensures forall k :: 0 <= k < BIG_BIN ==> (size <= CellSize(k) <==> BinSize(size) <= k)
  {
    var e := CeilingLog(size);
    Pow2Values();
    CeilingLogOrder(size, e, 11);
    forall k | 0 <= k < BIG_BIN ensures size <= CellSize(k) <==> BinSize(size) <= k {
      CeilingLogOrder(size, e, k + 2);
    }
  }

  lemma CellSizeRange(k: nat)
    requires k < BIG_BIN
    ensures CellSize(k) % 4 == 0 && 4 <= CellSize(k) <= 2048
  {
    Pow2Values();
    Pow2Monotone(2, k + 2);
    Pow2Monotone(k + 2, 11);
    assert Pow2(k + 2) == 2 * Pow2(k + 1) == 4 * Pow2(k);
  }

  // As many cells as fit behind the header: one more would not.
  lemma CellCountBounds(k: nat)
    ensures CellCount(k) * CellSize(k) <= PAGE - SMALL_HEADER < CellCount(k) * CellSize(k) + CellSize(k)
    ensures k < BIG_BIN ==> CellCount(k) >= 1
  {
    ShiftRightBounds(PAGE - SMALL_HEADER, k + 2);
    if k < BIG_BIN && CellCount(k) == 0 {
      CellSizeRange(k);
      assert false;
    }
  }

  // A fresh big block exceeds the request by 1 to 4096 bytes, ends on a page
  // boundary, and fails to hold the request only when `size + 48` wraps.
  lemma FreshBlockFits(size: nat)
    requires size < WORD_LIMIT
    ensures size + BIG_HEADER < WORD_LIMIT ==> 1 <= BigCapacity(PagesFor(size)) - size <= PAGE
    ensures size <= BigCapacity(PagesFor(size)) <==> size + BIG_HEADER < WORD_LIMIT
    ensures (BigCapacity(PagesFor(size)) + BIG_HEADER) % 0x1000 == 0
    ensures BigCapacity(PagesFor(size)) > NUM_BINS
  {
    var w := (size + BIG_HEADER) % 0x1_0000_0000;
    assert w == 0x1000 * (w / 0x1000) + w % 0x1000;
  }

  // The least request that wraps gets one page, which does not hold it.
  lemma WrappedRequest()
    ensures var size := 0xFFFF_FFD0;
            size + BIG_HEADER == WORD_LIMIT && PagesFor(size) == 1 && BigCapacity(1) == 4048 < size
  {
  }

  // The cell sizes and counts of the ten bins, and big blocks, as numbers.
  lemma SizesInNumbers(k: nat)
    requires k < 10
    ensures CellSize(k) == [4, 8, 16, 32, 64, 128, 256, 512, 1024, 2048][k]
    ensures CellCount(k) == [1020, 510, 255, 127, 63, 31, 15, 7, 3, 1][k]
  {
    assert Pow2(2) == 4 && Pow2(5) == 32 && Pow2(8) == 256 && Pow2(10) == 1024 && Pow2(11) == 2048;
    CellCountBounds(k);
  }

  lemma CellCountIs(k: nat)
    ensures CellCount(k) == 4080 / CellSize(k)
  {
    CellCountBounds(k);
    var n, d := CellCount(k), CellSize(k);
    assert 4080 == d * n + (4080 - n * d);
    RemainderUnique(4080, d, n, 4080 - n * d);
  }
}
