// kmalloc_raw (heap.c): placement memory until the heap exists, the heap
// afterwards. The physical address it then reports is looked up in the page
// tables, and the identity map makes it the address itself.
module KernelMalloc {
  import opened Frames
  import opened HeapInvariant
  import opened HeapMemory
  import opened HeapSpec
  import opened HeapState
  import opened KernelHeap
  import opened Paging
  import opened RamModel
  import opened SizeClasses
  import opened SkipLists
  import opened TableClears

  // ----- The heap phase -----

  // The heap can serve the request.
  ghost predicate Serves(g: State, size: nat, align: bool) {
    size < WORD_LIMIT && RoomFor(g, if align then VallocSize(size) else size)
  }

  // What a request turns the heap into and the pointer it gets: valloc when
  // aligned, malloc otherwise.
  ghost function Served(g: State, size: nat, align: bool): (r: (State, int))
    requires Inv(g) && Serves(g, size, align)
    ensures Inv(r.0)
  {
    if align then Valloced(g, size) else Allocated(g, size)
  }

  // The pointer lies in the heap and is its client's, or is null.
  lemma ServedInside(g: State, size: nat, align: bool)
    requires Inv(g) && Serves(g, size, align) && (align ==> size + PAGE < WORD_LIMIT)
    ensures var (g', p) := Served(g, size, align);
            && (p == 0 <==> size == 0 && !align)
            && (p != 0 ==> p in g'.live && p !in g.live && g.start <= p <= g'.top)
            && (size <= Capacity(g', p) || (!align && size + BIG_HEADER >= WORD_LIMIT))
            && (align ==> p % 0x1000 == 0)
            && g'.start == g.start && 0 <= p <= g'.top < WORD_LIMIT && ClientsKeep(g, g')
  {
    var (g', p) := Served(g, size, align);
    BoundsOfState(g');
    if align { VallocIsNew(g, size); } else if size > 0 { AllocationIsNew(g, size); }
    if p in g'.live {
      LiveInside(g', p);
      BlockBounds(g', g'.live[p]);
    }
  }

  lemma AlignedPages(size: nat)
    requires size <= 0x2004
    ensures VallocSize(size) == size + 4048 && 1 <= PagesFor(VallocSize(size)) <= 4
  {
  }

  // A block found or made for a request starts at or below the old end.
  lemma AllocatedBigTop(g: State, size: nat)
    requires Inv(g)
    requires LowerBound(g.free, size) == |g.free| ==> g.top + PagesFor(size) * 0x1000 < WORD_LIMIT
    ensures var (g', p) := AllocatedBig(g, size);
            && g.top <= g'.top <= g.top + PagesFor(size) * 0x1000
            && p in g'.live && g'.live[p] <= g.top
  {
    var j := LowerBound(g.free, size);
    if j < |g.free| {
      FreeBlock(g, j);
      BlockBounds(g, g.free[j].addr);
    }
  }

  // A page-aligned block of up to a directory's size takes at most four new pages,
  // and starts at most one past the old end.
  lemma AlignedServed(g: State, size: nat)
    requires Inv(g) && size <= DIRECTORY_SIZE && g.top + 0x4000 < WORD_LIMIT
    ensures Serves(g, size, true)
    ensures var (g', p) := Served(g, size, true); g'.top <= g.top + 0x4000 && p <= g.top + PAGE
  {
    var n := VallocSize(size);
    AlignedPages(size);
    BinIsSmallestFit(n);
    assert Serves(g, size, true);
    AllocatedBigTop(g, n);
    VallocedBig(g, size);
    assert Served(g, size, true).0.top == Allocated(g, n).0.top;
  }

  // What a page-aligned request did to the heap, if there is one; before init_heap
  // there is none.
  datatype HeapClause = OfHeap

  ghost predicate ServedHolds(k: HeapClause, started: bool, g: State, g': State, p: int, size: nat) {
    match k
    case OfHeap => started ==> Inv(g) && Serves(g, size, true) && (g', p) == Served(g, size, true)
  }

  ghost predicate WasServed(started: bool, g: State, g': State, p: int, size: nat) {
    forall k :: ServedHolds(k, started, g, g', p, size)
  }

  // The block at p may be cleared, and the heap outlives that exactly if intact.
  ghost predicate TableHolds(k: HeapClause, started: bool, g: State, p: int) {
    match k
    case OfHeap => started ==> IsTable(g, p)
  }

  ghost predicate TableAt(started: bool, g: State, p: int) {
    forall k :: TableHolds(k, started, g, p)
  }

  ghost predicate OutlivesHolds(k: HeapClause, started: bool, g: State, p: int, intact: bool) {
    match k
    case OfHeap => if started then IsTable(g, p) && (intact <==> Spared(g, g.live[p])) else intact
  }

  ghost predicate Outlives(started: bool, g: State, p: int, intact: bool) {
    forall k :: OutlivesHolds(k, started, g, p, intact)
  }

  // A block served for a table or a directory may be cleared.
  lemma BlockServed(started: bool, g: State, g': State, p: int, size: nat)
    requires WasServed(started, g, g', p, size) && TABLE_SIZE <= size <= DIRECTORY_SIZE
    ensures TableAt(started, g', p)
  {
    assert ServedHolds(OfHeap, started, g, g', p, size);
    if started {
      VallocedBig(g, size);
      VallocIsNew(g, size);
    }
    forall k ensures TableHolds(k, started, g', p) { }
  }

  // A directory's block is large enough for the clear.
  lemma DirectoryOutlived(started: bool, g: State, g': State, p: int, intact: bool)
    requires WasServed(started, g, g', p, DIRECTORY_SIZE) && Outlives(started, g', p, intact)
    ensures intact
  {
    assert ServedHolds(OfHeap, started, g, g', p, DIRECTORY_SIZE) && OutlivesHolds(OfHeap, started, g', p, intact);
    if started {
      VallocedBig(g, DIRECTORY_SIZE);
      VallocIsNew(g, DIRECTORY_SIZE);
    }
  }

  // Memory that agrees below the heap's end holds the heap as before.
  lemma HeapKept(g: State, m: Memory, m': Memory, r: Roots, head: int, level: int)
    requires Inv(g) && Represents(m, r, g) && ListOk(m, head, level, g.free) && head + BIG_HEADER <= g.start
    requires forall x :: x < g.top ==> Rd(m', x) == Rd(m, x)
    ensures Represents(m', r, g) && ListOk(m', head, level, g.free) && ClientsUntouched(g, m, m', 0)
  {
    BelowTopKept(g, m, m');
    RepresentationKept(m, m', r, g);
    GrowthKeepsList(g, m, m', head, level, 0);
    GrowthMissesClients(g, m, m', 0);
  }

  // `kmalloc_raw` in the heap phase, under a directory that maps the first n
  // pages onto themselves, one of them the pointer's.
  method KmallocRaw(heap: Heap, dir: PageDirectory, size: nat, align: bool, ghost n: nat)
    returns (address: int, phys: int)
    requires heap.Valid() && Serves(heap.g, size, align) && dir.Valid()
    requires Identity(dir.View(), n) && 0 <= Served(heap.g, size, align).1 < n * 0x1000 <= WORD_LIMIT
    modifies heap`heapEnd, heap`heads, heap`newest, heap`g, heap.bigs, heap.ram
    ensures heap.Valid() && (heap.g, address) == Served(old(heap.g), size, align)
    ensures align ==> (heap.g, address) == Valloced(old(heap.g), size)
    ensures !align ==> (heap.g, address) == Allocated(old(heap.g), size)
    ensures ClientsUntouched(old(heap.g), old(heap.ram.m), heap.ram.m, 0)
    ensures Above(old(heap.ram.m), heap.ram.m, heap.g.top)
    ensures phys == address
  {
    if align {
      address := heap.KlValloc(size);
    } else {
      address := heap.KlMalloc(size);
    }
    phys := Physical(dir, address, n);
  }

  // The physical address kmalloc_raw reports for a heap address.
  method Physical(dir: PageDirectory, address: int, ghost n: nat) returns (phys: int)
    requires dir.Valid() && Identity(dir.View(), n) && 0 <= address < n * 0x1000 <= WORD_LIMIT
    ensures phys == address
  {
    PageMapped(dir.View(), n, address);
    assert address / 0x1000 / 1024 in dir.View();
    var table, index := dir.Find(address);
    assert dir.View()[address / 0x1000 / 1024] == table.pages[..];
    phys := table.pages[index].frame * 0x1000 + address % 0x1000;
  }

  lemma PageMapped(v: Tables, n: nat, address: int)
    requires Identity(v, n) && 0 <= address < n * 0x1000
    ensures TablesOk(v) && Has(v, address / 0x1000) && Entry(v, address / 0x1000).frame == address / 0x1000
    ensures address / 0x1000 * 0x1000 + address % 0x1000 == address
  {
    MappedEntry(v, n, address / 0x1000);
  }

  // No pointer a client holds is, or lies inside, a placement block; so free,
  // which ignores pointers at or below placement_pointer, ignores every placement
  // block and never a live pointer.
  lemma PlacementApart(g: State, blocks: seq<Extent>, pointer: nat, i: nat, p: int)
    requires Inv(g) && pointer < g.start && i < |blocks|
    requires forall j :: 0 <= j < |blocks| ==> 0 <= blocks[j].start && blocks[j].start + blocks[j].size <= pointer
    requires p in g.live
    ensures blocks[i].start <= pointer < p
    ensures blocks[i].start + blocks[i].size < g.live[p]
  {
    LiveInside(g, p);
    BlockBounds(g, g.live[p]);
  }

  // ----- Both phases -----

  // Old clients keep their pointers, capacities and bytes.
  datatype KeptClause = Pointers | Contents

  ghost predicate KeptHolds(c: KeptClause, g: State, m: Memory, g': State, m': Memory) {
    match c
    case Pointers => ClientsKeep(g, g')
    case Contents => ClientsUntouched(g, m, m', 0)
  }

  ghost predicate Kept(g: State, m: Memory, g': State, m': Memory) {
    forall c :: KeptHolds(c, g, m, g', m')
  }

  lemma KeptUnfold(g: State, m: Memory, g': State, m': Memory)
    requires Kept(g, m, g', m')
    ensures ClientsKeep(g, g') && ClientsUntouched(g, m, m', 0)
  {
    assert KeptHolds(Pointers, g, m, g', m') && KeptHolds(Contents, g, m, g', m');
  }

  lemma KeptFold(g: State, m: Memory, g': State, m': Memory)
    requires ClientsKeep(g, g') && ClientsUntouched(g, m, m', 0)
    ensures Kept(g, m, g', m')
  {
    forall c ensures KeptHolds(c, g, m, g', m') { }
  }

  lemma KeptFurther(g: State, m: Memory, g1: State, m1: Memory, g2: State, m2: Memory)
    requires Kept(g, m, g1, m1) && Kept(g1, m1, g2, m2)
    ensures Kept(g, m, g2, m2)
  {
    KeptUnfold(g, m, g1, m1);
    KeptUnfold(g1, m1, g2, m2);
    UntouchedTwice(g, g1, m, m1, m2, 0);
    KeptFold(g, m, g2, m2);
  }

  lemma WipedAbove(m: Memory, m1: Memory, m2: Memory, p: nat, top: int)
    requires Above(m, m1, top) && Wiped(m1, m2, p) && p + DIRECTORY_SIZE <= top
    ensures Above(m, m2, top)
  {
    assert WipedHolds(Changes, m1, m2, p);
  }

  lemma ClearKeeps(g: State, g': State, m: Memory, m1: Memory, m2: Memory, p: int)
    requires Kept(g, m, g', m1) && ClientsUntouched(g', m1, m2, p) && p !in g.live
    ensures Kept(g, m, g', m2)
  {
    KeptUnfold(g, m, g', m1);
    UntouchedByNewcomer(g, g', m, m1, m2, p);
    KeptFold(g, m, g', m2);
  }

  datatype StoreClause = Placing | Heaping | Mapping | Below

  datatype ValidClause = Standing | Loaded

  // Where the kernel's memory comes from. Before init_heap it is placement memory;
  // afterwards, when heap_end is not 0, it is the heap, and the kernel directory
  // maps the first `mapped` pages onto themselves. Either ends below page `low`.
  class Store {
    const ram: Ram
    const placement: Placement
    const heap: Heap
    const kernel: PageDirectory
    ghost const started: bool
    ghost const low: nat
    ghost const mapped: nat

    constructor (placement: Placement, heap: Heap, kernel: PageDirectory, ghost low: nat, ghost mapped: nat)
      ensures this.ram == heap.ram && this.placement == placement && this.heap == heap && this.kernel == kernel
      ensures this.started == (heap.heapEnd != 0) && this.low == low && this.mapped == mapped
    {
      this.ram, this.placement, this.heap, this.kernel := heap.ram, placement, heap, kernel;
      this.started, this.low, this.mapped := heap.heapEnd != 0, low, mapped;
    }

    ghost predicate Holds(c: StoreClause)
      reads placement, kernel`slots, kernel.tables, kernel.physical, kernel.slots.Keys, heap, heap.bigs
    {
      match c
      case Placing => placement.Valid() && 0x1000 <= placement.pointer
      case Heaping =>
        heap.ram == ram &&
        if started then heap.Stands() else heap.Blank() && heap.bigs.head + BIG_HEADER <= placement.pointer
      case Mapping => started ==> kernel.Valid() && Identity(kernel.View(), mapped)
      case Below => Top() < low * 0x1000 <= WORD_LIMIT && (started ==> low <= mapped && mapped * 0x1000 <= WORD_LIMIT)
    }

    // All but the memory is in order; and memory m has what it should.
    ghost predicate Stands()
      reads placement, kernel`slots, kernel.tables, kernel.physical, kernel.slots.Keys, heap, heap.bigs
    {
      forall c :: Holds(c)
    }

    ghost predicate In(m: Memory)
      reads heap, heap.bigs
    {
      if started then heap.In(m) else ListOk(m, heap.bigs.head, heap.bigs.level, heap.bigs.free)
    }

    ghost predicate ValidHolds(v: ValidClause)
      reads placement, kernel`slots, kernel.tables, kernel.physical, kernel.slots.Keys
      reads heap, heap.bigs, ram
    {
      match v
      case Standing => Stands()
      case Loaded => In(ram.m)
    }

    ghost predicate Valid()
      reads placement, kernel`slots, kernel.tables, kernel.physical, kernel.slots.Keys
      reads heap, heap.bigs, ram
    {
      forall v :: ValidHolds(v)
    }

    lemma ValidIs()
      ensures Valid() <==> Stands() && In(ram.m)
    {
      if Valid() { assert ValidHolds(Standing) && ValidHolds(Loaded); }
      if Stands() && In(ram.m) { forall v ensures ValidHolds(v) { } }
    }

    // The end of the memory handed out so far, and the bytes left to grow into.
    ghost function Top(): int
      reads placement, heap
    {
      if started then heap.g.top else placement.pointer
    }

    ghost function Room(): int
      reads placement, heap
    {
      low * 0x1000 - Top()
    }

    // `kmalloc_raw`, aligned, for a table or a directory.
    method Aligned(size: nat) returns (address: nat, phys: nat)
      requires Valid() && size <= DIRECTORY_SIZE && Room() > 0x4000
      modifies placement, ram, heap`heapEnd, heap`heads, heap`newest, heap`g, heap.bigs
      ensures Valid() && phys == address && address % 0x1000 == 0 && Room() >= old(Room()) - 0x4000
      ensures 0 < low && address + DIRECTORY_SIZE <= low * 0x1000 && address !in old(heap.g.live)
      ensures Above(old(ram.m), ram.m, low * 0x1000) && Kept(old(heap.g), old(ram.m), heap.g, ram.m)
      ensures !started ==> address == NextBoundary(old(placement.pointer)) && ram.m == old(ram.m)
      ensures !started ==> placement.pointer == address + size && heap.bigs.head + BIG_HEADER <= address
      ensures WasServed(started, old(heap.g), heap.g, address, size)
      ensures started ==> address in heap.g.live && size <= Capacity(heap.g, address)
    {
      ValidIs();
      assert Holds(Placing) && Holds(Heaping) && Holds(Mapping) && Holds(Below);
      if started { BoundsOfState(heap.g); }
      if heap.heapEnd != 0 {
        AlignedServed(heap.g, size);
        ServedInside(heap.g, size, true);
        address, phys := KmallocRaw(heap, kernel, size, true, mapped);
      } else {
        address, phys := placement.Kmalloc(size, true);
      }
      KeptFold(old(heap.g), old(ram.m), heap.g, ram.m);
      forall k ensures ServedHolds(k, started, old(heap.g), heap.g, address, size) { }
      forall c ensures Holds(c) { }
      ValidIs();
    }

    lemma Carries(m: Memory, m': Memory)
      requires Stands() && In(m) && forall x :: x < Top() ==> Rd(m', x) == Rd(m, x)
      ensures In(m')
    {
      assert Holds(Heaping);
      if started {
        HeapKept(heap.g, m, m', Roots(heap.heads, heap.newest), heap.bigs.head, heap.bigs.level);
      } else {
        ListKept(m, m', heap.bigs.head, heap.bigs.level, heap.bigs.free);
      }
    }

    // Memories that agree below the end of what is handed out have it both or neither.
    lemma Agree(m: Memory, m': Memory)
      requires Stands() && forall x :: x < Top() ==> Rd(m', x) == Rd(m, x)
      ensures In(m) <==> In(m')
      ensures Kept(heap.g, m, heap.g, m')
    {
      if In(m) { Carries(m, m'); }
      if In(m') { Carries(m', m); }
      assert Holds(Heaping);
      if started { GrowthMissesClients(heap.g, m, m', 0); }
      KeptFold(heap.g, m, heap.g, m');
    }

    // memset for a directory's size, from the start of a block. For the block of a
    // table that may be too much: intact tells whether the heap outlives it.
    method Clear(p: nat) returns (intact: bool)
      requires Valid() && p % 0x1000 == 0 && p + DIRECTORY_SIZE <= low * 0x1000
      requires TableAt(started, heap.g, p) && (!started ==> heap.bigs.head + BIG_HEADER <= p)
      modifies ram
      ensures Wiped(old(ram.m), ram.m, p) && Stands()
      ensures Outlives(started, heap.g, p, intact) && (Valid() <==> intact)
      ensures intact ==> ClientsUntouched(heap.g, old(ram.m), ram.m, p)
    {
      ValidIs();
      assert Holds(Heaping) && TableHolds(OfHeap, started, heap.g, p);
      ghost var m := ram.m;
      if started { BoundsOfState(heap.g); }
      intact := heap.heapEnd == 0 || Spares(ram.m, p - PAGE, heap.heapEnd);
      ram.MemSet(p, 0, DIRECTORY_SIZE);
      WipedByFill(m, p, DIRECTORY_SIZE) by { PageIsWord(p, 0); }
      if started {
        SparesTells(m, Roots(heap.heads, heap.newest), heap.g, p);
        ClearIsExact(m, ram.m, Roots(heap.heads, heap.newest), heap.g, heap.bigs.head, heap.bigs.level, p);
      } else {
        assert WipedHolds(Changes, m, ram.m, p);
        ListKept(m, ram.m, heap.bigs.head, heap.bigs.level, heap.bigs.free);
      }
      forall k ensures OutlivesHolds(k, started, heap.g, p, intact) { }
      ValidIs();
    }

    // A block for a table or a directory, and the clear that follows in either case.
    method Cleared(size: nat) returns (address: nat, phys: nat, intact: bool)
      requires Valid() && TABLE_SIZE <= size <= DIRECTORY_SIZE && Room() > 0x4000
      modifies placement, ram, heap`heapEnd, heap`heads, heap`newest, heap`g, heap.bigs
      ensures Stands() && 0 < low && Room() >= old(Room()) - 0x4000
      ensures WasServed(started, old(heap.g), heap.g, address, size) && Outlives(started, heap.g, address, intact)
      ensures (Valid() <==> intact) && (intact ==> Kept(old(heap.g), old(ram.m), heap.g, ram.m))
      ensures Above(old(ram.m), ram.m, low * 0x1000)
      ensures phys == address && address % 0x1000 == 0 && address !in old(heap.g).live
      ensures !started ==> address == NextBoundary(old(placement.pointer))
      ensures started ==> address in heap.g.live && size <= Capacity(heap.g, address)
    {
      ghost var g0, m0 := heap.g, ram.m;
      address, phys := Aligned(size);
      ghost var g1, m1 := heap.g, ram.m;
      BlockServed(started, g0, g1, address, size);
      intact := Clear(address);
      WipedAbove(m0, m1, ram.m, address, low * 0x1000);
      if intact { ClearKeeps(g0, g1, m0, m1, ram.m, address); }
    }
  }
}
