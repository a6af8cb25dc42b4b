// What each call of the allocator does to its state, field by field, in addresses
// and numbers alone.
module HeapOperations {
  import opened SizeClasses
  import opened SkipLists
  import opened HeapState
  import opened HeapInvariant
  import opened HeapSpec

  // ----- malloc -----

  // Bin k has the smallest cells that hold size.
  predicate InBin(size: nat, k: nat, cell: nat) {
    && k < 10 && cell == [4, 8, 16, 32, 64, 128, 256, 512, 1024, 2048][k]
    && 0 < size <= cell && (k == 0 || cell < 2 * size)
  }

  lemma BinFound(size: nat, k: nat, cell: nat)
    requires InBin(size, k, cell)
    ensures BinSize(size) == k && CellSize(k) == cell && CellCount(k) == 4080 / cell >= 1
  {
    SizesInNumbers(k);
    assert k > 0 ==> CellSize(k) == 2 * CellSize(k - 1);
    BinIsSmallestFit(size);
    CellCountIs(k);
    CellCountBounds(k);
  }

  // With a slab listed in the bin, the top cell of the first one; a slab that has no
  // other leaves the list.
  lemma MallocCell(g: State, size: nat, k: nat, cell: nat)
    requires Inv(g) && RoomFor(g, size) && InBin(size, k, cell) && |g.bins| == 10 && g.bins[k] != []
    ensures var a := g.bins[k][0];
            a in g.stacks && g.stacks[a] != [] &&
            var s := g.stacks[a];
            Allocated(g, size) ==
            (g.(stacks := g.stacks[a := s[1..]],
                live := g.live[s[0] := a],
                bins := if |s| == 1 then g.bins[k := g.bins[k][1..]] else g.bins),
             s[0])
  {
    BinFound(size, k, cell);
    FirstCell(g, k);
  }

  // Otherwise the first cell of a new page; its other cells are free, in order.
  lemma MallocSlab(g: State, size: nat, k: nat, cell: nat)
    requires Inv(g) && RoomFor(g, size) && InBin(size, k, cell) && |g.bins| == 10 && g.bins[k] == []
    ensures var a, n, (g', p) := g.top, 4080 / cell, Allocated(g, size);
            && p == a + 16
            && g' == g.(top := a + 4096, order := g.order + [a], kind := g.kind[a := Slab(k)],
                        stacks := g'.stacks, live := g.live[p := a],
                        bins := if n == 1 then g.bins else g.bins[k := [a]])
            && a in g'.stacks && g'.stacks == g.stacks[a := g'.stacks[a]] && |g'.stacks[a]| == n - 1
            && forall i :: 0 <= i < n - 1 ==> g'.stacks[a][i] == a + 16 + (i + 1) * cell
  {
    BinFound(size, k, cell);
    GrowSlabInv(g, k);
    var a, s := g.top, GrowSlab(g, k);
    CellsFromAt(a, k, 0);
    FirstCell(s, k);
    assert s.bins[k] == [a] && s.bins[k][1..] == [];
    assert g.bins[k := [a]][k := []] == g.bins;
  }

  // The first free block large enough.
  lemma MallocBlock(g: State, size: nat, j: nat)
    requires Inv(g) && RoomFor(g, size) && 2048 < size
    requires j < |g.free| && size <= g.free[j].size && forall i :: 0 <= i < j ==> g.free[i].size < size
    ensures var a := g.free[j].addr;
            Allocated(g, size) ==
            (g.(free := g.free[..j] + g.free[j + 1..],
                user := g.user[a := a + 48],
                live := g.live[a + 48 := a]),
             a + 48)
  {
    BinIsSmallestFit(size);
    LowerBoundUnique(g.free, size, j);
  }

  // Or new pages, when none is.
  lemma MallocPages(g: State, size: nat)
    requires Inv(g) && RoomFor(g, size) && 2048 < size && forall j :: 0 <= j < |g.free| ==> g.free[j].size < size
    ensures var a, n := g.top, (size + 48) % 0x1_0000_0000 / 4096 + 1;
            Allocated(g, size) ==
            (g.(top := a + n * 4096, order := g.order + [a], kind := g.kind[a := Big(n)],
                user := g.user[a := a + 48],
                live := g.live[a + 48 := a]),
             a + 48)
  {
    BinIsSmallestFit(size);
    LowerBoundUnique(g.free, size, |g.free|);
  }

  // The heap has room for a request whenever it may grow by its pages.
  lemma RoomSuffices(g: State, size: nat)
    requires Inv(g) && g.top + (size + 48) % 0x1_0000_0000 + 4096 < 0x1_0000_0000
    ensures RoomFor(g, size)
  {
    if size > 0 {
      BinIsSmallestFit(size);
      BinCount(g);
    }
  }

  // ----- valloc -----

  // valloc asks malloc for 4048 bytes more and moves to the page behind the header.
  lemma VallocBlock(g: State, size: nat, n: nat)
    requires Inv(g) && n == (size + 4048) % 0x1_0000_0000 && n > 2048 && RoomFor(g, n)
    ensures var (g1, p), (g', out) := Allocated(g, n), Valloced(g, size);
            p in g1.live &&
            var a := g1.live[p];
            && p == a + 48 && out == a + 4096
            && g' == g1.(user := g1.user[a := a + 4096], live := (g1.live - {p})[a + 4096 := a])
  {
    VallocedBig(g, size);
  }

  // A request that wraps down to a cell, or to nothing, leaves that as it is.
  lemma VallocWrapped(g: State, size: nat, n: nat)
    requires Inv(g) && n == (size + 4048) % 0x1_0000_0000 && n <= 2048 && RoomFor(g, n)
    ensures var (g1, p) := Allocated(g, n); Valloced(g, size) == (g1, (p + 4048) % 0x1_0000_0000)
  {
  }

  // ----- free -----

  // A cell of any slab goes on top of its slab's stack; the slab rejoins the front
  // of its bin exactly if it had none free.
  lemma FreeIntoSlab(g: State, p: int, height: nat)
    requires Inv(g) && p in g.live && g.live[p] in g.kind && g.kind[g.live[p]].Slab? && height <= MAX_LEVEL
    ensures var a, k := g.live[p], g.kind[g.live[p]].bucket;
            a in g.stacks && k < |g.bins| &&
            Freed(g, p, height) ==
            g.(stacks := g.stacks[a := [p] + g.stacks[a]],
               live := g.live - {p},
               bins := if g.stacks[a] == [] then g.bins[k := [a] + g.bins[k]] else g.bins)
  {
    LiveCell(g, p);
    BlockBounds(g, g.live[p]);
    assert Holds(Slabs, g);
    BinCount(g);
  }

  // A big block goes before the first free one that is not smaller.
  lemma FreeIntoList(g: State, p: int, height: nat, k: nat)
    requires Inv(g) && p in g.live && height <= MAX_LEVEL && g.live[p] in g.kind && g.kind[g.live[p]].Big?
    requires var size := g.kind[g.live[p]].pages * 4096 - 48;
             && k <= |g.free| && (forall i :: 0 <= i < k ==> g.free[i].size < size)
             && (k < |g.free| ==> size <= g.free[k].size)
    ensures var a := g.live[p];
            var n := FreeNode(a, g.kind[a].pages * 4096 - 48, height);
            Freed(g, p, height) ==
            g.(free := g.free[..k] + [n] + g.free[k..], user := g.user[a := 0], live := g.live - {p})
  {
    LowerBoundUnique(g.free, g.kind[g.live[p]].pages * 4096 - 48, k);
  }

  // ----- What clients have -----

  lemma CapacityOf(g: State, p: int)
    requires Inv(g) && p in g.live
    ensures g.live[p] in g.kind
    ensures match g.kind[g.live[p]]
            case Slab(k) => k < 10 && Capacity(g, p) == [4, 8, 16, 32, 64, 128, 256, 512, 1024, 2048][k]
            case Big(n) => Capacity(g, p) == g.live[p] + n * 4096 - p
  {
    LiveInside(g, p);
    BlockBounds(g, g.live[p]);
    if g.kind[g.live[p]].Slab? { SizesInNumbers(g.kind[g.live[p]].bucket); }
  }
}
