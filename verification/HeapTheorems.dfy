// What the allocator guarantees, as theorems about its state: conservation,
// reversibility, best fit, tiling, and safety over whole runs.
module HeapTheorems {
  import opened SizeClasses
  import opened SkipLists
  import opened HeapState
  import opened HeapInvariant
  import opened HeapMemory
  import opened HeapSpec

  // ----- Conservation -----

  ghost function LiveIn(g: State, a: int): set<int> {
    set p | p in g.live && g.live[p] == a
  }

  ghost function Elements(s: seq<int>): set<int> {
    set x | x in s
  }

  lemma {:induction false} DistinctCount(s: seq<int>)
    requires Distinct(s)
    ensures |Elements(s)| == |s|
  {
    if s != [] {
      var n := |s| - 1;
      var rest := s[..n];
      DistinctCount(rest);
      assert s == rest + [s[n]];
      assert Elements(s) == Elements(rest) + {s[n]};
      assert s[n] !in rest;
    }
  }

  // Free cells and live cells of a slab are together exactly the cells laid out
  // when it was made, and none is both.
  lemma SlabConservation(g: State, a: int)
    requires Inv(g) && a in g.kind && g.kind[a].Slab?
    ensures a in g.stacks
    ensures Elements(g.stacks[a]) !! LiveIn(g, a)
    ensures forall c :: c in Elements(g.stacks[a]) + LiveIn(g, a) <==> IsCell(a, g.kind[a].bucket, c)
    ensures |g.stacks[a]| + |LiveIn(g, a)| == CellCount(g.kind[a].bucket)
  {
    SlabCells(g, a);
    var k, free, held := g.kind[a].bucket, Elements(g.stacks[a]), LiveIn(g, a);
    FreshCells(a, k);
    DistinctCount(g.stacks[a]);
    DistinctCount(CellsFrom(a, k, 0));
    assert Elements(CellsFrom(a, k, 0)) == free + held;
  }

  lemma SlabCells(g: State, a: int)
    requires Inv(g) && a in g.kind && g.kind[a].Slab?
    ensures a in g.stacks && Distinct(g.stacks[a])
    ensures Elements(g.stacks[a]) !! LiveIn(g, a)
    ensures forall c :: c in Elements(g.stacks[a]) + LiveIn(g, a) <==> IsCell(a, g.kind[a].bucket, c)
  {
    assert Holds(Slabs, g) && Holds(Lives, g);
    var k := g.kind[a].bucket;
    forall c ensures c in LiveIn(g, a) <==> IsCell(a, k, c) && c !in g.stacks[a] {
      if IsCell(a, k, c) && c in g.live { CellIsOwned(g, a, c); }
    }
    forall c | c in g.stacks[a] ensures c !in LiveIn(g, a) { assert IsCell(a, k, c); }
  }

  lemma CellIsOwned(g: State, a: int, c: int)
    requires Inv(g) && a in g.kind && g.kind[a].Slab? && IsCell(a, g.kind[a].bucket, c) && c in g.live
    ensures g.live[c] == a
  {
    LiveInside(g, c);
    BlockBounds(g, a);
    BlockBounds(g, g.live[c]);
    CellBounds(a, g.kind[a].bucket, c);
    BlocksApart(g, a, g.live[c]);
  }

  // A slab is on its bin's list, and on no other, exactly when it has a free cell.
  lemma ListedIffRoom(g: State, a: int, k: nat)
    requires Inv(g) && a in g.kind && g.kind[a].Slab? && k < BIG_BIN && |g.bins| == BIG_BIN
    ensures a in g.stacks
    ensures a in g.bins[k] <==> k == g.kind[a].bucket && g.stacks[a] != []
  {
    assert Holds(Bins, g) && Holds(Slabs, g);
    BlockBounds(g, a);
  }

  // ----- Tiling -----

  // Every address of the heap lies in exactly one block.
  lemma HeapTiled(g: State, x: int)
    requires Inv(g) && g.start <= x < g.top
    ensures exists a :: a in g.kind && a <= x < a + Len(g.kind[a])
    ensures forall a, b ::
              a in g.kind && b in g.kind && a <= x < a + Len(g.kind[a]) && b <= x < b + Len(g.kind[b]) ==> a == b
  {
    assert Holds(Tiles, g) && Holds(Shape, g);
    TiledUpTo(g, x, |g.order|);
  }

  lemma {:induction false} TiledUpTo(g: State, x: int, n: nat)
    requires Inv(g) && n <= |g.order| && (n > 0 ==> g.order[n - 1] in g.kind)
    requires g.start <= x < Boundary(g.start, g.order, g.kind, n)
    ensures exists a :: a in g.kind && a <= x < a + Len(g.kind[a])
  {
    assert Holds(Tiles, g);
    assert n > 0;
    assert g.order[n - 1] == Boundary(g.start, g.order, g.kind, n - 1);
    if x < g.order[n - 1] { TiledUpTo(g, x, n - 1); }
  }

  // The physical chain of big blocks runs in ascending address order.
  ghost predicate Ascend(s: seq<int>) {
    forall i, j :: 0 <= i < j < |s| ==> s[i] < s[j]
  }

  lemma AscendFurther(s: seq<int>, b: int)
    requires Ascend(s) && forall x :: x in s ==> x < b
    ensures Ascend(s + [b])
  {
    forall i | 0 <= i < |s| ensures s[i] < b { assert s[i] in s; }
  }

  lemma {:induction false} BigBlocksAscend(g: State, n: nat)
    requires Inv(g) && n <= |g.order|
    ensures Ascend(BigBlocks(g.order[..n], g.kind))
    ensures forall b :: b in BigBlocks(g.order[..n], g.kind) ==> n > 0 && b <= g.order[n - 1]
  {
    assert Holds(Tiles, g);
    if n > 0 {
      var rest := BigBlocks(g.order[..n - 1], g.kind);
      BigBlocksAscend(g, n - 1);
      assert g.order[..n][..n - 1] == g.order[..n - 1];
      assert g.order[n - 1] == Boundary(g.start, g.order, g.kind, n - 1);
      if n > 1 { BlockBounds(g, g.order[n - 2]); }
      AscendFurther(rest, g.order[n - 1]);
    }
  }

  // ----- Best fit -----

  // The search finds a block exactly when one is large enough; then it is the
  // smallest such block, and the first in the list among those of its size.
  lemma BestFit(free: seq<FreeNode>, size: int)
    requires Sorted(free)
    ensures LowerBound(free, size) == |free| <==> forall j :: 0 <= j < |free| ==> free[j].size < size
    ensures var k := LowerBound(free, size);
            k < |free| ==>
              && size <= free[k].size
              && (forall j :: 0 <= j < |free| && size <= free[j].size ==> free[k].size <= free[j].size)
              && (forall j :: 0 <= j < |free| && free[j].size == free[k].size ==> k <= j)
  {
  }

  // A block listed again comes before every block of its own size or more: among
  // equals, the most recently freed is first.
  lemma MostRecentFirst(free: seq<FreeNode>, n: FreeNode)
    requires Sorted(free)
    ensures var free', k := Inserted(free, n), LowerBound(free, n.size);
            && k < |free'| && free'[k] == n && Removed(free', k) == free
            && (forall j :: 0 <= j < k ==> free'[j].size < n.size)
            && (forall j :: k < j < |free'| ==> n.size <= free'[j].size)
  {
    var free', k := Inserted(free, n), LowerBound(free, n.size);
    RemovedInserted(free, k, n);
    forall j | k < j < |free'| ensures n.size <= free'[j].size {
      assert free'[j] == free[j - 1];
      if k < j - 1 { assert free[k].size <= free[j - 1].size; }
    }
  }

  lemma RemovedInserted(free: seq<FreeNode>, k: nat, n: FreeNode)
    requires k <= |free|
    ensures Removed(InsertAt(free, k, n), k) == free
  {
  }

  // ----- Reversibility -----

  // Taking a cell that needs no new slab and giving it back restores the state
  // exactly: the same stack order and the same list order.
  lemma SmallRoundTrip(g: State, size: nat, height: nat)
    requires Inv(g) && RoomFor(g, size) && 0 < size <= 2048 && height <= MAX_LEVEL
    requires BinSize(size) < |g.bins| && g.bins[BinSize(size)] != []
    ensures var (g', p) := Allocated(g, size);
            p in g'.live && Freed(g', p, height) == g
  {
    BinIsSmallestFit(size);
    var k := BinSize(size);
    var (g', p) := Allocated(g, size);
    FirstCell(g, k);
    AllocationIsNewSmall(g, k);
    var a := g.bins[k][0];
    var s := g.stacks[a];
    assert [p] + s[1..] == s;
    var back := Freed(g', p, height);
    assert back.stacks == g.stacks;
    assert back.live == g.live;
    assert [a] + g.bins[k][1..] == g.bins[k];
    assert back.bins == g.bins;
  }

  lemma AllocationIsNewSmall(g: State, k: nat)
    requires Inv(g) && k < BIG_BIN && |g.bins| == BIG_BIN && g.bins[k] != []
    ensures var (g', p) := AllocatedSmall(g, k);
            && p in g'.live && p !in g.live && g'.live[p] == g.bins[k][0]
            && g'.live[p] in g'.kind && g'.kind[g'.live[p]] == Slab(k)
  {
    FirstCell(g, k);
  }

  // The same blocks in the same order, whatever the heights of their towers.
  ghost predicate SameBlocks(a: seq<FreeNode>, b: seq<FreeNode>) {
    |a| == |b| && forall i :: 0 <= i < |a| ==> a[i].addr == b[i].addr && a[i].size == b[i].size
  }

  // The same state but for the heights of the free blocks' towers.
  ghost predicate SameButHeights(g: State, h: State) {
    SameBlocks(h.free, g.free) && h.(free := g.free) == g
  }

  // Taking a free big block and giving it back restores the state exactly but
  // for the height of its tower.
  lemma BigRoundTrip(g: State, size: nat, height: nat)
    requires Inv(g) && RoomFor(g, size) && 2048 < size && height <= MAX_LEVEL
    requires LowerBound(g.free, size) < |g.free|
    ensures var (g', p) := Allocated(g, size);
            p in g'.live && SameButHeights(g, Freed(g', p, height))
  {
    var j := LowerBound(g.free, size);
    assert j == LowerBound(g.free, g.free[j].size) by { BestFitIsFirstOfItsSize(g.free, size); }
    TakenAndGiven(g, j, height);
    BestFitIsTaken(g, size, j);
  }

  lemma BestFitIsTaken(g: State, size: nat, j: nat)
    requires Inv(g) && RoomFor(g, size) && 2048 < size && j == LowerBound(g.free, size) < |g.free|
    ensures Allocated(g, size).0 == TakeBig(g, j) && Allocated(g, size).1 == g.free[j].addr + BIG_HEADER
  {
    BinIsSmallestFit(size);
  }

  // The first block of its size taken and given back.
  lemma TakenAndGiven(g: State, j: nat, height: nat)
    requires Inv(g) && j < |g.free| && j == LowerBound(g.free, g.free[j].size) && height <= MAX_LEVEL
    ensures var g', p := TakeBig(g, j), g.free[j].addr + BIG_HEADER;
            && Inv(g') && p in g'.live && SameButHeights(g, Freed(g', p, height))
  {
    FreeBlock(g, j);
    TakeBigInv(g, j);
    var a, p := g.free[j].addr, g.free[j].addr + BIG_HEADER;
    assert Sorted(g.free) by { assert Holds(Frees, g); }
    assert a in g.user && g.user[a] == 0 && g.free[j].size == BigCapacity(g.kind[a].pages) by {
      assert Holds(Frees, g);
    }
    ReinsertedAt(g.free, j, FreeNode(a, g.free[j].size, height));
    var g' := TakeBig(g, j);
    assert g'.user[a := 0] == g.user;
    assert g'.live - {p} == g.live;
    assert Freed(g', p, height) == GiveBig(g', p, height);
  }

  lemma ReinsertedAt(free: seq<FreeNode>, j: nat, n: FreeNode)
    requires Sorted(free) && j < |free| && n.addr == free[j].addr && n.size == free[j].size
    requires LowerBound(free, free[j].size) == j
    ensures SameBlocks(Inserted(Removed(free, j), n), free)
  {
    RemovedBound(free, j);
    var again := InsertAt(Removed(free, j), j, n);
    forall i | 0 <= i < |free| ensures again[i].addr == free[i].addr && again[i].size == free[i].size {
      if i > j { assert again[i] == Removed(free, j)[i - 1] == free[i]; }
    }
  }

  lemma RemovedBound(free: seq<FreeNode>, j: nat)
    requires Sorted(free) && j < |free| && LowerBound(free, free[j].size) == j
    ensures LowerBound(Removed(free, j), free[j].size) == j
  {
    var rest := Removed(free, j);
    if j < |rest| { assert rest[j] == free[j + 1]; }
    LowerBoundUnique(rest, free[j].size, j);
  }

  // A big block freed is the one handed out for the next request of its full
  // capacity.
  lemma FreedBlockReturns(g: State, p: int, height: nat)
    requires Inv(g) && p in g.live && height <= MAX_LEVEL
    requires g.live[p] in g.kind && g.kind[g.live[p]].Big?
    ensures var size := BigCapacity(g.kind[g.live[p]].pages);
            var g' := Freed(g, p, height);
            && size > 2048 && RoomFor(g', size)
            && Allocated(g', size).1 == g.live[p] + BIG_HEADER
            && Allocated(g', size).0.free == g.free
  {
    var a := g.live[p];
    BlockBounds(g, a);
    var size := BigCapacity(g.kind[a].pages);
    var n, g' := FreeNode(a, size, height), Freed(g, p, height);
    BinIsSmallestFit(size);
    var k := LowerBound(g.free, size);
    LowerBoundUnique(g'.free, size, k);
    assert g'.free == InsertAt(g.free, k, n);
    assert Removed(g'.free, k) == g.free;
  }

  // ----- Where the code falls short -----

  lemma EmptyInv(start: int)
    requires 0 < start && start % 0x1000 == 0 && start < WORD_LIMIT
    ensures Inv(Empty(start))
  {
    var e := Empty(start);
    forall c ensures Holds(c, e) { }
  }

  // The pointer valloc hands out, masked as in klrealloc without klfree's
  // adjustment, never leads to its header: it leads to itself.
  lemma VallocMasksToItself(g: State, size: nat)
    requires Inv(g) && RoomFor(g, VallocSize(size)) && size + PAGE < WORD_LIMIT
    ensures var (g', out) := Valloced(g, size);
            out in g'.live && out - out % 0x1000 == out != g'.live[out]
  {
    VallocIsNew(g, size);
    var (g', out) := Valloced(g, size);
    HeaderRecovered(g', out);
  }

  // The same on a concrete state: one byte from a fresh heap.
  lemma VallocPointerMasksToItself(start: int)
    requires 0 < start && start % 0x1000 == 0 && start + 0x2000 < WORD_LIMIT
    ensures Inv(Empty(start)) && RoomFor(Empty(start), VallocSize(1))
    ensures var (g', out) := Valloced(Empty(start), 1);
            out in g'.live && out - out % 0x1000 == out != g'.live[out]
  {
    EmptyInv(start);
    assert RoomFor(Empty(start), VallocSize(1)) by {
      assert VallocSize(1) == 4049 && PagesFor(4049) == 2;
      BinIsSmallestFit(4049);
    }
    VallocMasksToItself(Empty(start), 1);
  }

  // clone_table clears a directory's size, 0x2004 bytes, from the start of a
  // table that valloc put at `table`. That stays inside the table's block exactly
  // when the block has four pages or more; a shorter one ends before, and if it is
  // not the last block the clear reaches into the header of the next.
  lemma TableClear(g: State, table: int, pages: nat)
    requires Inv(g) && table in g.live && g.live[table] in g.kind && g.kind[g.live[table]] == Big(pages)
    requires table == g.live[table] + PAGE
    ensures table + 0x2004 <= g.live[table] + pages * 0x1000 <==> pages >= 4
    ensures var end := g.live[table] + pages * 0x1000;
            pages < 4 && end < g.top ==> end in g.kind && table <= end < table + 0x2004
  {
    var a := g.live[table];
    var end := a + pages * 0x1000;
    BlockBounds(g, a);
    if end < g.top {
      HeapTiled(g, end);
      var b :| b in g.kind && b <= end < b + Len(g.kind[b]);
      BlocksApart(g, a, b);
    }
  }

  // A table on new pages has three.
  lemma FreshTablePages()
    ensures PagesFor(VallocSize(0x1000)) == 3
  {
  }
}
