// From init_paging to init_heap (main.c): the boot loops map memory onto itself,
// the kernel directory is cloned for the first time, and the heap begins. After
// that the kernel's memory is in the state its calls of kmalloc rely on.
module Booting {
  import opened Cloning
  import opened Frames
  import opened HeapState
  import opened KernelHeap
  import opened KernelMalloc
  import opened Paging
  import opened RamModel
  import opened SizeClasses

  // The frames of an identity map are those of the pages mapped.
  lemma IdentityFrames(v: Tables, n: nat, t: int)
    requires Identity(v, n) && t in v
    ensures 0 <= t < 1024 && FramesWithin(v[t], 0, n)
  {
    assert IdentityHolds(WellFormed, v, n) && IdentityHolds(IdentityClause.Mapped, v, n);
    assert IdentityHolds(Unmapped, v, n);
    forall i | 0 <= i < |v[t]| ensures v[t][i].frame == 0 || 0 <= v[t][i].frame < n {
      var p := t * 1024 + i;
      assert p / 1024 == t && p % 1024 == i;
      assert Has(v, p) && Entry(v, p) == v[t][i];
    }
  }

  // A directory cloned from the kernel's own has no table to copy.
  lemma {:induction false} NothingToCopy(v: Tables, tables: seq<PageTable?>, last: nat)
    requires last <= |tables| && forall t :: t in v ==> 0 <= t < |tables| && tables[t] != null
    ensures Left(tables, tables, last) == 0 && Used(v, tables, tables, last) == 0
  {
    if last > 0 { NothingToCopy(v, tables, last - 1); }
  }

  lemma KernelSource(s: Snapshot, n: nat)
    requires Sized(s) && Identity(s.view, n) && forall t :: t in s.view ==> 0 <= t < 1024 && s.tables[t] != null
    ensures SourceOk(s, s.tables, n, n)
    ensures Left(s.tables, s.tables, |s.tables|) == 0 && Needed(s.view, s.tables, s.tables) == 0
  {
    NothingToCopy(s.view, s.tables, |s.tables|);
    forall t | t in s.view ensures 0 <= t < 1024 && FramesWithin(s.view[t], 0, n) {
      IdentityFrames(s.view, n, t);
    }
  }

  // Before init_heap no clear can harm the heap.
  lemma CleanBefore(g: State, c: nat)
    ensures CleanCall(false, g, c)
  {
    forall k ensures CallHolds(k, false, g, c) { }
  }

  // Where the skip list's head lies, among the kernel's zeroed globals.
  ghost predicate HeadAt(m: Memory, head: int, pointer: int) {
    && 0 < head && head + BIG_HEADER <= pointer
    && forall i :: 0 <= i <= SkipLists.MAX_LEVEL ==> Rd(m, SkipLists.Slot(head, i)) == 0
  }

  lemma SharedSame(s: Snapshot, d: Snapshot, n: nat, m0: Memory, m: Memory)
    requires Sized(s) && Sized(d) && SlotsCloned(s, s.tables, d, |s.tables|, n, m0, m)
    requires forall t :: 0 <= t < |s.tables| ==> (t in s.view <==> s.tables[t] != null)
    ensures d.tables == s.tables
  {
    forall t | 0 <= t < |s.tables| ensures d.tables[t] == s.tables[t] {
      assert SlotCloned(s, s.tables, d, t, n, m0, m);
    }
  }

  // The end of `init_paging`: the first clone shares every table.
  method FirstClone(early: Store, frames: FrameMap, dir: PageDirectory, ghost n: nat) returns (current: PageDirectory)
    requires early.Valid() && !early.started && early.kernel == dir && early.low == n && early.Room() > 0x4000
    requires dir.Valid() && Identity(dir.View(), n)
    requires frames.Valid() && frames.HandedOut(n) && frames.words != dir.physical
    modifies early.placement, early.ram, early.heap`heapEnd, early.heap`heads, early.heap`newest, early.heap`g,
             early.heap.bigs, frames.words
    ensures early.Valid() && early.Room() >= old(early.Room()) - 0x4000 && frames.Valid() && frames.HandedOut(n)
    ensures dir.Valid() && Identity(dir.View(), n) && dir.tables[..] == old(dir.tables[..])
    ensures current.Valid() && current.tables[..] == dir.tables[..]
  {
    ghost var s, m := Snap(dir), early.ram.m;
    KernelSource(s, n);
    CleanBefore(early.heap.g, ToCopy(dir, dir));
    var ok, intact;
    current, ok, intact := CloneDirectory(early, frames, dir, n);
    assert SourceHolds(OfSource, dir, dir, s, s.tables);
    SharedSame(s, Snap(current), n, m, early.ram.m);
  }

  // The kernel's memory before init_heap: placement memory up to page n.
  method Early(dir: PageDirectory, placement: Placement, ram: Ram, head: int, ghost n: nat) returns (early: Store)
    requires placement.Valid() && 0x1000 <= placement.pointer < n * 0x1000 <= WORD_LIMIT
    requires HeadAt(ram.m, head, placement.pointer)
    ensures fresh(early) && fresh(early.heap) && fresh(early.heap.bigs) && early.Valid() && !early.started
    ensures early.kernel == dir && early.placement == placement && early.ram == ram && early.low == n
  {
    var heap := new Heap(ram, head);
    early := new Store(placement, heap, dir, n, n);
    forall c ensures early.Holds(c) { }
    early.ValidIs();
  }

  // The kernel directory maps the first n pages onto themselves, their frames are
  // taken, and the current directory has the same tables.
  datatype ReadyClause = Mapped | Numbered | Shared

  ghost predicate ReadyHolds(c: ReadyClause, kernel: PageDirectory, current: PageDirectory, frames: FrameMap, n: nat)
    reads kernel`slots, kernel.tables, kernel.physical, kernel.slots.Keys
    reads current`slots, current.tables, current.physical, frames, frames.words
  {
    match c
    case Mapped => kernel.Valid() && Identity(kernel.View(), n)
    case Numbered => frames.Valid() && frames.HandedOut(n)
    case Shared => current.Valid() && current.tables[..] == kernel.tables[..]
  }

  ghost predicate Ready(kernel: PageDirectory, current: PageDirectory, frames: FrameMap, n: nat)
    reads kernel`slots, kernel.tables, kernel.physical, kernel.slots.Keys
    reads current`slots, current.tables, current.physical, frames, frames.words
  {
    forall c :: ReadyHolds(c, kernel, current, frames, n)
  }

  // The end of `init_paging` in a memory whose first n pages are mapped onto
  // themselves and reach six pages past placement_pointer.
  method EndPaging(dir: PageDirectory, frames: FrameMap, placement: Placement, ram: Ram, head: int, ghost n: nat)
    returns (early: Store, current: PageDirectory)
    requires dir.Valid() && Identity(dir.View(), n) && placement.Valid() && 0x1000 <= placement.pointer
    requires frames.Valid() && frames.HandedOut(n) && frames.words != dir.physical
    requires placement.pointer + 0x6000 < n * 0x1000 <= WORD_LIMIT
    requires HeadAt(ram.m, head, placement.pointer)
    modifies placement, ram, frames.words
    ensures fresh(early) && fresh(early.heap) && early.Valid() && !early.started && early.Room() > 0x2000
    ensures early.kernel == dir && early.placement == placement && early.ram == ram && early.low == n
    ensures Ready(dir, current, frames, n)
  {
    early := Early(dir, placement, ram, head, n);
    current := FirstClone(early, frames, dir, n);
    forall c ensures ReadyHolds(c, dir, current, frames, n) { }
  }

  // `init_heap`, two pages below the end of the memory mapped.
  method StartHeap(early: Store, current: PageDirectory, frames: FrameMap, ghost n: nat) returns (store: Store)
    requires early.Valid() && !early.started && early.low == n && early.Room() > 0x2000
    requires Ready(early.kernel, current, frames, n) && n * 0x1000 < WORD_LIMIT - 0x2000
    modifies early.heap`placement, early.heap`heapEnd, early.heap`g
    ensures store.Valid() && store.started && store.low == store.mapped == n && Ready(store.kernel, current, frames, n)
    ensures store.kernel == early.kernel && store.placement == early.placement && store.ram == early.ram
    ensures store.heap.g.kind == map[] && store.heap.g.live == map[]
  {
    assert ReadyHolds(ReadyClause.Mapped, early.kernel, current, frames, n);
    early.ValidIs();
    assert early.Holds(Heaping) && early.Holds(Placing) && early.Holds(Below);
    early.heap.InitHeap(early.placement.pointer);
    store := new Store(early.placement, early.heap, early.kernel, n, n);
    forall c ensures store.Holds(c) { }
    store.ValidIs();
  }

  // `init_paging` and `init_heap`, with the limit of the second loop far enough past
  // all tables: the kernel's memory is ready exactly when there are frames up to it.
  method Boot(memEnd: nat, limit: nat, before: seq<nat>, placement: Placement, ram: Ram, head: int)
    returns (store: Store?, current: PageDirectory?, frames: FrameMap, ok: bool, ghost n: nat)
    requires placement.Valid() && 0x1000 <= placement.pointer && placement.pointer <= KHEAP_START - 0x6000 - memEnd
    requires limit % 0x1000 == 0 && memEnd < KHEAP_START && HeadAt(ram.m, head, placement.pointer)
    requires |before| == memEnd / 0x1000 / 32 && WordsOk(before) && Frames.Blank(before)
    requires BootEnd(TablesStart(placement.pointer, |before|), 0) + 0x2000 * HEAP_TABLE + 0x7000 < limit
    modifies placement, ram
    ensures frames.Total() == memEnd / 0x1000 / 32 * 32 && (ok <==> limit <= frames.Total() * 0x1000)
    ensures ok ==> store != null && store.Valid() && store.started && store.low == store.mapped == n
    ensures ok ==> current != null && Ready(store.kernel, current, frames, n) && limit <= n * 0x1000
    ensures ok ==> store.placement == placement && store.ram == ram
    ensures ok ==> store.heap.g.kind == map[] && store.heap.g.live == map[]
  {
    store, current := null, null;
    var dir;
    dir, frames, ok, n := InitPaging(memEnd, limit, before, placement);
    if ok {
      MappingUnfold(dir, frames, placement, n);
      var early;
      early, current := EndPaging(dir, frames, placement, ram, head, n);
      store := StartHeap(early, current, frames, n);
    }
  }
}
