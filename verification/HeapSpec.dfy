// What malloc and free do to the allocator state, and what clients get.
module HeapSpec {
  import opened SizeClasses
  import opened SkipLists
  import opened HeapState
  import opened HeapInvariant

  // The heap can be extended by what this request needs, if it needs any.
  ghost predicate RoomFor(g: State, size: nat) {
    size == 0 ||
    if BinSize(size) < BIG_BIN then
      |g.bins| == BIG_BIN && (g.bins[BinSize(size)] == [] ==> g.top + PAGE < WORD_LIMIT)
    else
      LowerBound(g.free, size) == |g.free| ==> g.top + PagesFor(size) * 0x1000 < WORD_LIMIT
  }

  // The state whose bin k has a slab with a free cell.
  ghost function Stocked(g: State, k: nat): (g': State)
    requires Inv(g) && k < BIG_BIN && |g.bins| == BIG_BIN && (g.bins[k] == [] ==> g.top + PAGE < WORD_LIMIT)
    ensures Inv(g') && |g'.bins| == BIG_BIN && g'.bins[k] != [] && g'.live == g.live
  {
    if g.bins[k] == [] then
      GrowSlabInv(g, k);
      GrowSlab(g, k)
    else g
  }

  ghost function AllocatedSmall(g: State, k: nat): (r: (State, int))
    requires Inv(g) && k < BIG_BIN && |g.bins| == BIG_BIN && (g.bins[k] == [] ==> g.top + PAGE < WORD_LIMIT)
    ensures Inv(r.0)
  {
    var s := Stocked(g, k);
    TakeCellInv(s, k);
    (TakeCell(s, k), s.stacks[s.bins[k][0]][0])
  }

  ghost function AllocatedBig(g: State, size: nat): (r: (State, int))
    requires Inv(g)
    requires LowerBound(g.free, size) == |g.free| ==> g.top + PagesFor(size) * 0x1000 < WORD_LIMIT
    ensures Inv(r.0)
  {
    var j := LowerBound(g.free, size);
    if j < |g.free| then
      TakeBigInv(g, j);
      (TakeBig(g, j), g.free[j].addr + BIG_HEADER)
    else
      GrowBigInv(g, PagesFor(size));
      (GrowBig(g, PagesFor(size)), g.top + BIG_HEADER)
  }

  // The state after klmalloc(size) and the pointer it returns.
  ghost function Allocated(g: State, size: nat): (r: (State, int))
    requires Inv(g) && RoomFor(g, size)
    ensures Inv(r.0)
  {
    if size == 0 then (g, 0)
    else if BinSize(size) < BIG_BIN then AllocatedSmall(g, BinSize(size))
    else AllocatedBig(g, size)
  }

  // The state after klfree(p); the height matters to big blocks only.
  ghost function Freed(g: State, p: int, height: nat): (g': State)
    requires Inv(g) && p in g.live && height <= MAX_LEVEL
    ensures Inv(g')
  {
    LiveInside(g, p);
    if g.kind[g.live[p]].Slab? then
      GiveCellInv(g, p);
      GiveCell(g, p)
    else
      GiveBigInv(g, p, height);
      GiveBig(g, p, height)
  }

  // klvalloc(size) asks klmalloc for this much; the addition wraps at 32 bits.
  function VallocSize(size: nat): nat {
    (size + PAGE - BIG_HEADER) % 0x1_0000_0000
  }

  // Old clients keep their pointers, blocks and capacities.
  ghost predicate ClientsKeep(g: State, g': State) {
    forall q :: q in g.live ==> q in g'.live && g'.live[q] == g.live[q] && Capacity(g', q) == Capacity(g, q)
  }

  // A request is met with a new pointer, word-aligned and never page-aligned,
  // into a block of its own, large enough exactly when the page count did not wrap.
  lemma AllocationIsNew(g: State, size: nat)
    requires Inv(g) && RoomFor(g, size) && 0 < size < WORD_LIMIT
    ensures var (g', p) := Allocated(g, size);
            && p != 0 && p !in g.live && p in g'.live && g'.live == g.live[p := g'.live[p]]
            && p % 4 == 0 && p % 0x1000 != 0
            && (size <= Capacity(g', p) <==> size + BIG_HEADER < WORD_LIMIT)
            && ClientsKeep(g, g')
  {
    var (g', p) := Allocated(g, size);
    BinIsSmallestFit(size);
    if BinSize(size) < BIG_BIN {
      SmallIsNew(g, BinSize(size));
    } else {
      BigIsNew(g, size);
    }
    LiveAligned(g', p);
  }

  lemma NotPageAligned(a: int, p: int)
    requires a % 0x1000 == 0 && a < p < a + 0x1000
    ensures p % 0x1000 != 0 && p - p % 0x1000 == a
  {
  }

  lemma SmallIsNew(g: State, k: nat)
    requires Inv(g) && k < BIG_BIN && |g.bins| == BIG_BIN && (g.bins[k] == [] ==> g.top + PAGE < WORD_LIMIT)
    ensures var (g', p) := AllocatedSmall(g, k);
            && p != 0 && p !in g.live && p in g'.live && g'.live == g.live[p := g'.live[p]]
            && p % 0x1000 != 0 && Capacity(g', p) == CellSize(k) && ClientsKeep(g, g')
  {
    var s := Stocked(g, k);
    FirstCell(s, k);
    var a := s.bins[k][0];
    var p := s.stacks[a][0];
    BlockBounds(s, a);
    CellBounds(a, k, p);
    CellSizeRange(k);
    NotPageAligned(a, p);
    forall q | q in g.live ensures g.live[q] in g.kind && g.live[q] != g.top {
      NotPastTop(g);
      LiveInside(g, q);
    }
  }

  lemma BigIsNew(g: State, size: nat)
    requires Inv(g) && size < WORD_LIMIT
    requires LowerBound(g.free, size) == |g.free| ==> g.top + PagesFor(size) * 0x1000 < WORD_LIMIT
    ensures var (g', p) := AllocatedBig(g, size);
            && p != 0 && p !in g.live && p in g'.live && g'.live == g.live[p := g'.live[p]]
            && p % 0x1000 != 0 && p == g'.live[p] + BIG_HEADER
            && g'.live[p] in g'.kind && g'.kind[g'.live[p]].Big?
            && (size <= Capacity(g', p) <==> size + BIG_HEADER < WORD_LIMIT) && ClientsKeep(g, g')
  {
    var j := LowerBound(g.free, size);
    if j < |g.free| {
      TakeBigInv(g, j);
      FreeBlock(g, j);
      BlockBounds(g, g.free[j].addr);
      NotPageAligned(g.free[j].addr, g.free[j].addr + BIG_HEADER);
    } else {
      GrowBigInv(g, PagesFor(size));
      FreshBlockFits(size);
      NotPastTop(g);
      NotPageAligned(g.top, g.top + BIG_HEADER);
      forall q | q in g.live ensures g.live[q] in g.kind && g.live[q] != g.top {
        LiveInside(g, q);
      }
    }
  }

  // The state after klvalloc(size) and the pointer it returns. A request that
  // wraps down to a cell leaves the cell taken and points past it.
  ghost function Valloced(g: State, size: nat): (r: (State, int))
    requires Inv(g) && RoomFor(g, VallocSize(size))
    ensures Inv(r.0)
  {
    var (g1, p) := Allocated(g, VallocSize(size));
    var out := (p + PAGE - BIG_HEADER) % 0x1_0000_0000;
    if VallocSize(size) > 2048 then
      BinIsSmallestFit(VallocSize(size));
      BigIsNew(g, VallocSize(size));
      RealignInv(g1, p);
      (Realign(g1, p), out)
    else (g1, out)
  }

  lemma CapacityBound(g: State, p: int)
    requires Inv(g)
    ensures Capacity(g, p) < WORD_LIMIT - PAGE
  {
    if p in g.live {
      LiveInside(g, p);
      BlockBounds(g, g.live[p]);
      if g.kind[g.live[p]].Slab? {
        LiveCell(g, p);
        CellBounds(g.live[p], g.kind[g.live[p]].bucket, p);
      }
    }
  }

  // A new big block handed out at its first page boundary.
  lemma RealignedIsNew(g: State, g1: State, p: int)
    requires Inv(g) && Inv(g1) && p in g1.live && p !in g.live && g1.live == g.live[p := g1.live[p]]
    requires g1.live[p] in g1.kind && g1.kind[g1.live[p]].Big? && p == g1.live[p] + BIG_HEADER && ClientsKeep(g, g1)
    ensures var g', out := Realign(g1, p), g1.live[p] + PAGE;
            && out < WORD_LIMIT && out in g'.live && out !in g.live && out % 0x1000 == 0
            && g'.live == g.live[out := g1.live[p]] && ClientsKeep(g, g')
            && Capacity(g', out) == Capacity(g1, p) - (PAGE - BIG_HEADER)
  {
    RealignInv(g1, p);
    BlockBounds(g1, g1.live[p]);
    assert g1.live - {p} == g.live;
  }

  lemma VallocedBig(g: State, size: nat)
    requires Inv(g) && RoomFor(g, VallocSize(size)) && VallocSize(size) > 2048
    ensures var (g1, p) := Allocated(g, VallocSize(size));
            var (g', out) := Valloced(g, size);
            && p in g1.live && g1.live[p] in g1.kind && g1.kind[g1.live[p]].Big? && p == g1.live[p] + BIG_HEADER
            && g' == Realign(g1, p) && out == g1.live[p] + PAGE < WORD_LIMIT
            && out in g'.live && out !in g.live && out % 0x1000 == 0
            && g'.live == g.live[out := g'.live[out]] && ClientsKeep(g, g')
            && (VallocSize(size) <= Capacity(g', out) + (PAGE - BIG_HEADER)
                <==> VallocSize(size) + BIG_HEADER < WORD_LIMIT)
  {
    var n := VallocSize(size);
    BinIsSmallestFit(n);
    BigIsNew(g, n);
    var (g1, p) := Allocated(g, n);
    RealignedIsNew(g, g1, p);
    BlockBounds(g1, g1.live[p]);
    assert (p + PAGE - BIG_HEADER) % 0x1_0000_0000 == g1.live[p] + PAGE;
  }

  // valloc gives its client the room asked for exactly when nothing wraps; then
  // the pointer is new and page-aligned. Old clients keep theirs in any case.
  lemma VallocIsNew(g: State, size: nat)
    requires Inv(g) && RoomFor(g, VallocSize(size)) && size < WORD_LIMIT
    ensures var (g', out) := Valloced(g, size);
            && (size <= Capacity(g', out) <==> size + PAGE < WORD_LIMIT)
            && (size + PAGE < WORD_LIMIT ==>
                  out in g'.live && out !in g.live && out % 0x1000 == 0 && g'.live == g.live[out := g'.live[out]])
            && ClientsKeep(g, g')
  {
    var (g', out) := Valloced(g, size);
    VallocKeepsClients(g, size);
    if size + PAGE < WORD_LIMIT {
      assert VallocSize(size) == size + PAGE - BIG_HEADER > 2048;
      VallocedBig(g, size);
    } else {
      CapacityBound(g', out);
    }
  }

  lemma VallocKeepsClients(g: State, size: nat)
    requires Inv(g) && RoomFor(g, VallocSize(size)) && size < WORD_LIMIT
    ensures ClientsKeep(g, Valloced(g, size).0)
  {
    var n := VallocSize(size);
    if n > 2048 {
      VallocedBig(g, size);
    } else {
      assert Valloced(g, size).0 == Allocated(g, n).0;
      if n > 0 { AllocationIsNew(g, n); }
    }
  }

  // The mask in klfree leads from any pointer a client holds to the header of
  // its block; without the adjustment of page-aligned pointers, as in klrealloc,
  // it does so exactly for those not page-aligned.
  lemma HeaderRecovered(g: State, p: int)
    requires Inv(g) && p in g.live
    ensures var x := if p % 0x1000 == 0 then p - 1 else p;
            x - x % 0x1000 == g.live[p] && 0 <= x < WORD_LIMIT
    ensures p - p % 0x1000 == g.live[p] <==> p % 0x1000 != 0
    ensures p % 0x1000 == 0 <==> g.live[p] in g.kind && g.kind[g.live[p]].Big? && p == g.live[p] + PAGE
  {
    LiveInside(g, p);
    var a := g.live[p];
    BlockBounds(g, a);
    if p < a + PAGE {
      NotPageAligned(a, p);
    } else {
      NotPageAligned(a, p - 1);
    }
  }

  // The size field tells slabs from big blocks.
  lemma SizeFieldTells(k: Kind)
    requires KindOk(k)
    ensures SizeField(k) > NUM_BINS <==> k.Big?
    ensures SizeField(k) < BIG_BIN <==> k.Slab?
  {
  }
}
