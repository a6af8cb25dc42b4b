// Page tables (paging.c) and the placement phase of kmalloc_raw (heap.c): tables
// made on demand, and the boot loops that map memory onto itself while the
// tables they create move the end of that memory.
module Paging {
  import opened Bits
  import opened Frames
  import opened SizeClasses

  const HEAP_TABLE: nat := 768        // the table of KHEAP_START, 0xC0000000
  const KHEAP_START: nat := 0xC0000000

  datatype Extent = Extent(start: int, size: nat)

  // Page-aligned placement always skips to the next page boundary.
  function NextBoundary(p: nat): nat {
    p - p % 0x1000 + 0x1000
  }

  lemma BoundaryIs(p: nat)
    ensures p < NextBoundary(p) <= p + 0x1000 && NextBoundary(p) % 0x1000 == 0
  {
  }

  // ----- Placement -----

  class Placement {
    var pointer: nat
    ghost var blocks: seq<Extent>

    // Blocks are disjoint, in ascending order, and end at or below the pointer.
    ghost predicate Valid()
      reads this
    {
      && (forall i, j :: 0 <= i < j < |blocks| ==> blocks[i].start + blocks[i].size <= blocks[j].start)
      && (forall i :: 0 <= i < |blocks| ==> 0 <= blocks[i].start && blocks[i].start + blocks[i].size <= pointer)
    }

    constructor (start: nat)
      ensures Valid() && pointer == start && blocks == []
    {
      pointer, blocks := start, [];
    }

    // `kmalloc_raw` before the heap exists. The physical address is the address.
    method Kmalloc(size: nat, align: bool) returns (address: nat, phys: nat)
      requires Valid() && pointer + size + 0x1000 < WORD_LIMIT
      modifies this
      ensures Valid() && blocks == old(blocks) + [Extent(address, size)]
      ensures phys == address && pointer == address + size
      ensures address == if align && old(pointer) >= 0x1000 then NextBoundary(old(pointer)) else old(pointer)
      ensures align && old(pointer) >= 0x1000 ==>
                address % 0x1000 == 0 && old(pointer) < address <= old(pointer) + 0x1000
      ensures !align || old(pointer) < 0x1000 ==> address == old(pointer)
    {
      PageMask(pointer);
      BoundaryIs(pointer);
      if align && And(pointer, 0xFFFFF000) != 0 {
        pointer := And(pointer, 0xFFFFF000);
        pointer := pointer + 0x1000;
      }
      phys := pointer;
      address := pointer;
      pointer := pointer + size;
      blocks := blocks + [Extent(address, size)];
    }
  }

  // ----- Tables -----

  // A directory has up to 1024 tables of 1024 entries.
  ghost predicate TablesOk(v: Tables) {
    forall t :: t in v ==> 0 <= t < 1024 && |v[t]| == 1024
  }

  // Page k has an entry.
  ghost predicate Has(v: Tables, k: nat) {
    k / 1024 in v
  }

  ghost function Entry(v: Tables, k: nat): Page
    requires TablesOk(v) && Has(v, k)
  {
    v[k / 1024][k % 1024]
  }

  function Blanks(n: nat): (s: seq<Page>)
    ensures |s| == n && forall i :: 0 <= i < n ==> s[i] == NO_PAGE
  {
    if n == 0 then [] else Blanks(n - 1) + [NO_PAGE]
  }

  // A table just zeroed.
  function BlankTable(): seq<Page> {
    Blanks(1024)
  }

  class PageTable {
    const address: nat
    const pages: array<Page>

    constructor (address: nat)
      ensures this.address == address && pages.Length == 1024 && fresh(pages)
      ensures forall i :: 0 <= i < 1024 ==> pages[i] == NO_PAGE
    {
      this.address := address;
      pages := new Page[1024](_ => NO_PAGE);
    }
  }

  class PageDirectory {
    const tables: array<PageTable?>
    const physical: array<nat>
    var physicalAddr: nat
    ghost var slots: map<array<Page>, nat>   // the slot of every table's entries
    ghost const floor: nat                   // every table lies from here on

    ghost predicate Valid()
      reads `slots, tables, physical
    {
      && tables.Length == physical.Length == 1024
      && (forall i :: 0 <= i < 1024 && tables[i] != null ==>
            tables[i].pages.Length == 1024 && tables[i].pages in slots && slots[tables[i].pages] == i)
    }

    constructor (ghost floor: nat)
      ensures Valid() && fresh(tables) && fresh(physical) && slots == map[] && this.floor == floor
      ensures forall i :: 0 <= i < 1024 ==> tables[i] == null && physical[i] == 0
    {
      tables := new PageTable?[1024](_ => null);
      physical := new nat[1024](_ => 0);
      physicalAddr := 0;
      slots := map[];
      this.floor := floor;
    }

    // Every table lies page-aligned between the floor and p, at the physical address
    // recorded for it with the present, writable and user bits.
    ghost predicate Placed(p: nat)
      reads `slots, tables, physical
      requires Valid()
    {
      floor <= p &&
      forall t :: 0 <= t < 1024 && tables[t] != null ==>
        && floor <= tables[t].address && tables[t].address + 0x1000 <= p && tables[t].address % 0x1000 == 0
        && physical[t] == Or(tables[t].address, 7)
    }

    // The entries of every table there is.
    ghost function View(): (v: Tables)
      requires Valid()
      reads `slots, tables, physical, slots.Keys
      ensures TablesOk(v)
    {
      map t | 0 <= t < 1024 && tables[t] != null :: tables[t].pages[..]
    }

    // The part of `get_page` that makes nothing: NULL for a missing table.
    method Find(address: nat) returns (table: PageTable?, index: nat)
      requires Valid() && address < WORD_LIMIT
      ensures index == address / 0x1000 % 1024 && table == tables[address / 0x1000 / 1024]
    {
      var page := address / 0x1000;
      table, index := tables[page / 1024], page % 1024;
    }

    // `get_page`: the table and index of an address's entry; a missing table is
    // made, zeroed, when asked for, and otherwise NULL is returned.
    method GetPage(address: nat, make: bool, placement: Placement) returns (table: PageTable?, index: nat)
      requires Valid() && placement.Valid() && address < WORD_LIMIT && placement.pointer + 0x2000 < WORD_LIMIT
      modifies this`slots, tables, physical, placement
      ensures Valid() && placement.Valid() && slots.Keys >= old(slots.Keys) && fresh(slots.Keys - old(slots.Keys))
      ensures index == address / 0x1000 % 1024 && table == tables[address / 0x1000 / 1024]
      ensures old(tables[address / 0x1000 / 1024]) != null || !make ==>
                && View() == old(View()) && tables[..] == old(tables[..]) && physical[..] == old(physical[..])
                && placement.pointer == old(placement.pointer)
      ensures old(tables[address / 0x1000 / 1024]) == null && make ==>
                && table != null && fresh(table) && fresh(table.pages)
                && tables[..] == old(tables[..])[address / 0x1000 / 1024 := table]
                && physical[..] == old(physical[..])[address / 0x1000 / 1024 := Or(table.address, 7)]
                && View() == old(View())[address / 0x1000 / 1024 := BlankTable()]
                && placement.pointer == table.address + 0x1000
                && table.address == (if old(placement.pointer) >= 0x1000 then NextBoundary(old(placement.pointer))
                                     else old(placement.pointer))
      ensures old(Placed(placement.pointer)) && old(placement.pointer) >= 0x1000 ==> Placed(placement.pointer)
    {
      table, index := Find(address);
      if table == null && make {
        table := MakeTable(address / 0x1000 / 1024, placement);
      }
    }

    // Put a table into an empty slot.
    method Enter(t: nat, table: PageTable, phys: nat)
      requires Valid() && t < 1024 && tables[t] == null && table.pages.Length == 1024
      requires table.pages !in slots
      modifies this`slots, tables, physical
      ensures slots == old(slots)[table.pages := t]
      ensures Valid() && tables[..] == old(tables[..])[t := table] && physical[..] == old(physical[..])[t := phys]
      ensures View() == old(View())[t := table.pages[..]]
    {
      tables[t] := table;
      physical[t] := phys;
      slots := slots[table.pages := t];
    }

    // A page-aligned table, zeroed, entered in the directory with its physical
    // address and the present, writable and user bits.
    method MakeTable(tableIndex: nat, placement: Placement) returns (table: PageTable)
      requires Valid() && placement.Valid() && tableIndex < 1024 && tables[tableIndex] == null
      requires placement.pointer + 0x2000 < WORD_LIMIT
      modifies this`slots, tables, physical, placement
      ensures Valid() && placement.Valid() && slots == old(slots)[table.pages := tableIndex]
      ensures fresh(table) && fresh(table.pages)
      ensures tables[..] == old(tables[..])[tableIndex := table]
      ensures physical[..] == old(physical[..])[tableIndex := Or(table.address, 7)]
      ensures View() == old(View())[tableIndex := BlankTable()]
      ensures placement.pointer == table.address + 0x1000
      ensures table.address == if old(placement.pointer) >= 0x1000 then NextBoundary(old(placement.pointer))
                               else old(placement.pointer)
      ensures old(Placed(placement.pointer)) && old(placement.pointer) >= 0x1000 ==> Placed(placement.pointer)
    {
      var start, phys := placement.Kmalloc(0x1000, true);
      table := new PageTable(start);
      assert table.pages[..] == BlankTable();
      Enter(tableIndex, table, Or(phys, 7));
    }

    // `alloc_frame` on entry `index` of table t.
    method AllocAt(frames: FrameMap, t: nat, index: nat, isKernel: bool, isWriteable: bool, ghost n: nat)
      returns (ok: bool)
      requires Valid() && frames.Valid() && frames.HandedOut(n)
      requires t < 1024 && tables[t] != null && index < 1024
      modifies frames.words, tables[t].pages
      ensures Valid() && frames.Valid()
      ensures View() == old(View())[t := tables[t].pages[..]]
      ensures tables[t].pages[..] == old(tables[t].pages[..])[index := tables[t].pages[index]]
      ensures old(tables[t].pages[index].frame) != 0 ==>
                ok && tables[t].pages[index] == old(tables[t].pages[index]) && frames.HandedOut(n)
      ensures old(tables[t].pages[index].frame) == 0 ==> (ok <==> n < frames.Total())
      ensures old(tables[t].pages[index].frame) == 0 && ok ==>
                && frames.HandedOut(n + 1)
                && tables[t].pages[index] ==
                   old(tables[t].pages[index]).(present := true, rw := isWriteable, user := !isKernel, frame := n)
      ensures !ok ==> frames.HandedOut(n) && View() == old(View())
      ensures var (v, m) := AfterAlloc(old(View()), n, frames.Total(), Call(t, index, isKernel, isWriteable));
              View() == v && frames.HandedOut(m)
    {
      ok := frames.AllocFrame(tables[t].pages, index, isKernel, isWriteable, n);
      assert tables[t].pages[..] == old(tables[t].pages[..])[index := tables[t].pages[index]];
      if !ok { assert tables[t].pages[..] == old(tables[t].pages[..]); }
    }
  }

  // ----- Boot -----

  // Pages below k are mapped onto the frames of the same numbers, for the kernel and
  // read-only; all other entries are blank; and the tables that exist are those of
  // the pages below k and the kernel heap's.
  ghost predicate Identity(v: Tables, k: nat) {
    forall c :: IdentityHolds(c, v, k)
  }

  datatype IdentityClause = WellFormed | Mapped | Unmapped | Existing

  ghost predicate IdentityHolds(c: IdentityClause, v: Tables, k: nat) {
    match c
    case WellFormed => TablesOk(v)
    case Mapped => TablesOk(v) && forall p :: 0 <= p < k ==> Has(v, p) && KernelPage(Entry(v, p), p)
    case Unmapped => TablesOk(v) && forall p :: k <= p < 0x100000 && Has(v, p) ==> Entry(v, p) == NO_PAGE
    case Existing => forall t :: 0 <= t < 1024 ==> (t in v <==> t < TablesFor(k) || t == HEAP_TABLE)
  }

  // Present, on frame f, not writable and not for users.
  ghost predicate KernelPage(page: Page, f: nat) {
    page.present && !page.rw && !page.user && !page.accessed && !page.dirty && page.frame == f
  }

  // Tables covering the first k pages.
  function TablesFor(k: nat): nat {
    (k + 1023) / 1024
  }

  lemma TablesStep(k: nat)
    ensures TablesFor(k + 1) == if k % 1024 == 0 then TablesFor(k) + 1 else TablesFor(k)
    ensures k % 1024 == 0 ==> TablesFor(k) == k / 1024
    ensures k % 1024 != 0 ==> k / 1024 == TablesFor(k) - 1
  {
  }

  lemma SlotOfPage(p: nat, k: nat)
    ensures p / 1024 == k / 1024 && p % 1024 == k % 1024 ==> p == k
  {
  }

  // The tables after page k's table has been made if need be.
  ghost function WithTable(v: Tables, k: nat): Tables {
    if k / 1024 in v then v else v[k / 1024 := BlankTable()]
  }

  // Mapping the next page extends the identity map by one.
  lemma IdentityStep(v: Tables, k: nat, page: Page)
    requires Identity(v, k) && k < HEAP_TABLE * 1024 && KernelPage(page, k)
    ensures TablesOk(v) && (Has(v, k) <==> k % 1024 != 0)
    ensures var w := WithTable(v, k);
            && TablesOk(w) && Has(w, k) && Entry(w, k) == NO_PAGE
            && Identity(w[k / 1024 := w[k / 1024][k % 1024 := page]], k + 1)
  {
    TablesStep(k);
    assert IdentityHolds(WellFormed, v, k) && IdentityHolds(Unmapped, v, k) && IdentityHolds(Existing, v, k);
    var w := WithTable(v, k);
    if k / 1024 in v { assert Has(v, k); }
    var v' := w[k / 1024 := w[k / 1024][k % 1024 := page]];
    forall p | 0 <= p < 0x100000 && p != k && Has(v', p)
      ensures Has(w, p) && Entry(v', p) == Entry(w, p)
    {
      SlotOfPage(p, k);
    }
    var next := k + 1;
    forall c ensures IdentityHolds(c, v', next) {
      match c {
        case WellFormed =>
        case Mapped =>
          assert IdentityHolds(Mapped, v, k);
          forall p | 0 <= p < k ensures Has(v', p) && KernelPage(Entry(v', p), p) {
            assert Has(v, p) && KernelPage(Entry(v, p), p);
          }
          assert Has(v', k) && Entry(v', k) == page;
        case Unmapped =>
          forall p | k < p < 0x100000 && Has(v', p) ensures Entry(v', p) == NO_PAGE {
            if Has(v, p) { assert Entry(v, p) == NO_PAGE; }
          }
        case Existing =>
      }
    }
  }

  // The entry alloc_frame leaves behind for a kernel page when n frames are taken.
  function Framed(page: Page, n: nat): Page {
    if page.frame != 0 then page else page.(present := true, rw := false, user := false, frame := n)
  }

  ghost function SetEntry(v: Tables, k: nat, page: Page): Tables
    requires TablesOk(v) && Has(v, k)
  {
    v[k / 1024 := v[k / 1024][k % 1024 := page]]
  }

  // Page k's entry before, a missing table counting as a blank one.
  ghost function PageBefore(v: Tables, k: nat): Page {
    if k / 1024 in v && k % 1024 < |v[k / 1024]| then v[k / 1024][k % 1024] else NO_PAGE
  }

  // v' is v with page k mapped, if it is not already and frame n is left.
  ghost predicate MappedPage(v: Tables, k: nat, n: nat, total: nat, ok: bool, v': Tables) {
    var w := WithTable(v, k);
    && TablesOk(w) && Has(w, k) && Entry(w, k) == PageBefore(v, k)
    && (ok <==> PageBefore(v, k).frame != 0 || n < total)
    && v' == if ok then SetEntry(w, k, Framed(PageBefore(v, k), n)) else w
  }

  // `alloc_frame` for the kernel, read-only, on the entry get_page makes.
  method MapPage(dir: PageDirectory, frames: FrameMap, placement: Placement, address: nat, ghost n: nat)
    returns (ok: bool)
    requires dir.Valid() && frames.Valid() && frames.HandedOut(n) && placement.Valid()
    requires address < WORD_LIMIT && frames.words != dir.physical
    requires 0x1000 <= placement.pointer && placement.pointer + 0x2000 < WORD_LIMIT
    modifies dir`slots, dir.tables, dir.physical, dir.slots.Keys, placement, frames.words
    ensures dir.Valid() && frames.Valid() && placement.Valid() && fresh(dir.slots.Keys - old(dir.slots.Keys))
    ensures placement.pointer == if Has(old(dir.View()), address / 0x1000) then old(placement.pointer)
                                 else NextBoundary(old(placement.pointer)) + 0x1000
    ensures old(dir.Placed(placement.pointer)) ==> dir.Placed(placement.pointer)
    ensures MappedPage(old(dir.View()), address / 0x1000, n, frames.Total(), ok, dir.View())
    ensures frames.HandedOut(if ok && PageBefore(old(dir.View()), address / 0x1000).frame == 0 then n + 1 else n)
  {
    ghost var v, k := dir.View(), address / 0x1000;
    var t, index := TouchPage(dir, placement, address);
    assert frames.words[..] == old(frames.words[..]);
    ok := FillPage(dir, frames, t, index, v, k, n);
  }

  // `alloc_frame` on page k's entry, whose table is there.
  method FillPage(dir: PageDirectory, frames: FrameMap, t: nat, index: nat, ghost v: Tables, ghost k: nat, ghost n: nat)
    returns (ok: bool)
    requires dir.Valid() && frames.Valid() && frames.HandedOut(n) && TablesOk(v) && k < 0x100000
    requires t == k / 1024 && index == k % 1024 && dir.tables[t] != null && dir.View() == WithTable(v, k)
    modifies frames.words, dir.tables[t].pages
    ensures dir.Valid() && frames.Valid() && MappedPage(v, k, n, frames.Total(), ok, dir.View())
    ensures frames.HandedOut(if ok && PageBefore(v, k).frame == 0 then n + 1 else n)
  {
    assert dir.View()[t] == dir.tables[t].pages[..];
    ok := dir.AllocAt(frames, t, index, true, false, n);
    PageIsMapped(v, k, n, frames.Total(), ok, dir.View(), dir.tables[t].pages[..]);
  }

  // `get_page` with tables made on demand, seen from the directory's entries.
  method TouchPage(dir: PageDirectory, placement: Placement, address: nat) returns (t: nat, index: nat)
    requires dir.Valid() && placement.Valid() && address < WORD_LIMIT
    requires 0x1000 <= placement.pointer && placement.pointer + 0x2000 < WORD_LIMIT
    modifies dir`slots, dir.tables, dir.physical, placement
    ensures dir.Valid() && placement.Valid()
    ensures dir.slots.Keys >= old(dir.slots.Keys) && fresh(dir.slots.Keys - old(dir.slots.Keys))
    ensures t == address / 0x1000 / 1024 < 1024 && index == address / 0x1000 % 1024 && dir.tables[t] != null
    ensures dir.View() == WithTable(old(dir.View()), address / 0x1000)
    ensures placement.pointer == if Has(old(dir.View()), address / 0x1000) then old(placement.pointer)
                                 else NextBoundary(old(placement.pointer)) + 0x1000
    ensures old(dir.Placed(placement.pointer)) ==> dir.Placed(placement.pointer)
  {
    t := address / 0x1000 / 1024;
    assert t in dir.View() <==> dir.tables[t] != null;
    var table;
    table, index := dir.GetPage(address, true, placement);
  }

  lemma PageIsMapped(v: Tables, k: nat, n: nat, total: nat, ok: bool, v': Tables, pages: seq<Page>)
    requires TablesOk(v) && k < 0x100000 && |pages| == 1024
    requires var w := WithTable(v, k);
             && pages == w[k / 1024][k % 1024 := pages[k % 1024]] && v' == w[k / 1024 := pages]
             && (ok <==> w[k / 1024][k % 1024].frame != 0 || n < total)
             && (if ok then pages[k % 1024] == Framed(w[k / 1024][k % 1024], n) else v' == w)
    ensures MappedPage(v, k, n, total, ok, v')
  {
  }

  // The same entry by entry: the page gets frame n, present, not writable and not for
  // users, unless it has a frame; the rest of its table, blank when just made, and
  // every other table stay as they were.
  lemma MappedPageIs(v: Tables, k: nat, n: nat, total: nat, ok: bool, v': Tables)
    requires TablesOk(v) && k < 0x100000 && MappedPage(v, k, n, total, ok, v')
    ensures var t, i, blank := k / 1024, k % 1024, Page(false, false, false, false, false, 0);
            var page := if t in v then v[t][i] else blank;
            && t in v' && |v'[t]| == 1024 && (ok <==> page.frame != 0 || n < total)
            && v'[t][i] == (if page.frame == 0 && ok then Page(true, false, false, page.accessed, page.dirty, n)
                            else page)
            && (forall j :: 0 <= j < 1024 && j != i ==> v'[t][j] == if t in v then v[t][j] else blank)
            && forall s :: s != t ==> (s in v' <==> s in v) && (s in v ==> v'[s] == v[s])
  {
  }

  // The identity map in full.
  lemma IdentityMeans(v: Tables, n: nat)
    requires Identity(v, n)
    ensures forall t :: t in v ==> 0 <= t < 1024 && |v[t]| == 1024
    ensures forall t :: 0 <= t < 1024 ==> (t in v <==> t < (n + 1023) / 1024 || t == 768)
    ensures forall p :: 0 <= p < n && p < 0x100000 ==>
              p / 1024 in v && v[p / 1024][p % 1024] == Page(true, false, false, false, false, p)
    ensures forall p :: n <= p < 0x100000 && p / 1024 in v ==>
              v[p / 1024][p % 1024] == Page(false, false, false, false, false, 0)
  {
    assert IdentityHolds(WellFormed, v, n) && IdentityHolds(Existing, v, n);
    assert IdentityHolds(Mapped, v, n) && IdentityHolds(Unmapped, v, n);
    forall p | 0 <= p < n && p < 0x100000
      ensures p / 1024 in v && v[p / 1024][p % 1024] == Page(true, false, false, false, false, p)
    {
      assert Has(v, p) && KernelPage(Entry(v, p), p);
    }
    forall p | n <= p < 0x100000 && p / 1024 in v
      ensures v[p / 1024][p % 1024] == Page(false, false, false, false, false, 0)
    {
      assert Has(v, p) && Entry(v, p) == NO_PAGE;
    }
  }

  // Where placement_pointer ends up when the first boot loop, with the tables for
  // c * 4 MB already made, runs to its moving end.
  function BootEnd(pointer: nat, c: nat): (end: nat)
    ensures end >= pointer
    decreases if c * 0x400000 < pointer + 0x1000 then pointer + 0x1000 - c * 0x400000 else 0
  {
    if c * 0x400000 >= pointer + 0x1000 then pointer
    else BootEnd(NextBoundary(pointer) + 0x1000, c + 1)
  }

  lemma {:induction false} AlignedEnd(p: nat, c: nat) returns (k: nat)
    requires p % 0x1000 == 0
    ensures BootEnd(p, c) == p + 0x2000 * k && p + 0x2000 * k + 0x1000 <= (c + k) * 0x400000
    ensures forall j :: 0 <= j < k ==> AboveTables(p + 0x2000 * j, c + j)
    decreases if c * 0x400000 < p + 0x1000 then p + 0x1000 - c * 0x400000 else 0
  {
    k := 0;
    if c * 0x400000 < p + 0x1000 {
      assert NextBoundary(p) + 0x1000 == p + 0x2000;
      var more := AlignedEnd(p + 0x2000, c + 1);
      k := more + 1;
      forall j | 0 <= j < k ensures AboveTables(p + 0x2000 * j, c + j) {
        if j > 0 { assert AboveTables(p + 0x2000 + 0x2000 * (j - 1), c + 1 + (j - 1)); }
      }
    }
  }

  // A page past the end is not covered by c tables.
  ghost predicate AboveTables(end: nat, c: nat) {
    end + 0x1000 > c * 0x400000
  }

  // In closed form: k more tables of two pages each, for the least k whose tables
  // cover one page past the end.
  lemma BootEndIs(pointer: nat, c: nat) returns (k: nat)
    ensures var base := pointer - pointer % 0x1000;
            && BootEnd(pointer, c) == (if k == 0 then pointer else base + 0x2000 * k)
            && BootEnd(pointer, c) + 0x1000 <= (c + k) * 0x400000
            && (k > 0 ==> AboveTables(pointer, c))
            && forall j :: 0 < j < k ==> AboveTables(base + 0x2000 * j, c + j)
  {
    k := 0;
    if c * 0x400000 < pointer + 0x1000 {
      var base := pointer - pointer % 0x1000;
      BoundaryIs(pointer);
      assert NextBoundary(pointer) + 0x1000 == base + 0x2000;
      var more := AlignedEnd(base + 0x2000, c + 1);
      k := more + 1;
      forall j | 0 < j < k ensures AboveTables(base + 0x2000 * j, c + j) {
        assert AboveTables(base + 0x2000 + 0x2000 * (j - 1), c + 1 + (j - 1));
      }
    }
  }

  // What a boot loop works on: tables in placement memory, apart from the bitmap.
  ghost predicate Usable(dir: PageDirectory, frames: FrameMap, placement: Placement)
    reads dir`slots, dir.tables, dir.physical, frames, frames.words, placement
  {
    && dir.Valid() && frames.Valid() && placement.Valid() && dir.Placed(placement.pointer)
    && frames.words != dir.physical && 0x1000 <= placement.pointer && frames.Total() < HEAP_TABLE * 1024
  }

  // The first n pages are mapped onto themselves, with the first n frames.
  datatype MappingClause = WorkingOn | Identical | Numbered

  ghost predicate MappingHolds(c: MappingClause, dir: PageDirectory, frames: FrameMap, placement: Placement, n: nat)
    reads dir`slots, dir.tables, dir.physical, dir.slots.Keys, frames, frames.words, placement
  {
    match c
    case WorkingOn => Usable(dir, frames, placement)
    case Identical => dir.Valid() && Identity(dir.View(), n)
    case Numbered => frames.HandedOut(n)
  }

  ghost predicate Mapping(dir: PageDirectory, frames: FrameMap, placement: Placement, n: nat)
    reads dir`slots, dir.tables, dir.physical, dir.slots.Keys, frames, frames.words, placement
  {
    forall c :: MappingHolds(c, dir, frames, placement, n)
  }

  lemma MappingUnfold(dir: PageDirectory, frames: FrameMap, placement: Placement, n: nat)
    requires Mapping(dir, frames, placement, n)
    ensures Usable(dir, frames, placement) && Identity(dir.View(), n) && frames.HandedOut(n)
    ensures n <= frames.Total() < HEAP_TABLE * 1024
  {
    assert MappingHolds(WorkingOn, dir, frames, placement, n) && MappingHolds(Identical, dir, frames, placement, n);
    assert MappingHolds(Numbered, dir, frames, placement, n);
  }

  lemma MappingFold(dir: PageDirectory, frames: FrameMap, placement: Placement, n: nat)
    requires Usable(dir, frames, placement) && Identity(dir.View(), n) && frames.HandedOut(n)
    ensures Mapping(dir, frames, placement, n)
  {
    forall c ensures MappingHolds(c, dir, frames, placement, n) { }
  }

  // placement_pointer after a round that maps page n.
  function PointerAfter(n: nat, pointer: nat): (p: nat)
    ensures pointer <= p <= pointer + 0x2000
  {
    if n % 1024 == 0 then NextBoundary(pointer) + 0x1000 else pointer
  }

  // One round of a boot loop, on a page already mapped or the next one: a mapped
  // page other than page 0 is left alone, the next one gets the frame of its number.
  method MapRound(dir: PageDirectory, frames: FrameMap, placement: Placement, address: nat, ghost n: nat)
    returns (ok: bool)
    requires Mapping(dir, frames, placement, n) && n < HEAP_TABLE * 1024
    requires address / 0x1000 == n || 1 <= address / 0x1000 < n
    requires placement.pointer + 0x2000 < WORD_LIMIT
    modifies dir`slots, dir.tables, dir.physical, dir.slots.Keys, placement, frames.words
    ensures Usable(dir, frames, placement) && fresh(dir.slots.Keys - old(dir.slots.Keys))
    ensures placement.pointer == if address / 0x1000 == n then PointerAfter(n, old(placement.pointer))
                                 else old(placement.pointer)
    ensures ok <==> address / 0x1000 < n || n < frames.Total()
    ensures ok ==> Mapping(dir, frames, placement, if address / 0x1000 == n then n + 1 else n)
  {
    MappingUnfold(dir, frames, placement, n);
    ghost var v, k := dir.View(), address / 0x1000;
    IdentityStep(v, n, Framed(NO_PAGE, n));
    if k < n { MappedEntry(v, n, k); }
    ok := MapPage(dir, frames, placement, address, n);
    if ok { MappingFold(dir, frames, placement, if k == n then n + 1 else n); }
  }

  lemma MappedEntry(v: Tables, n: nat, k: nat)
    requires Identity(v, n) && k < n
    ensures TablesOk(v) && Has(v, k) && KernelPage(Entry(v, k), k)
    ensures SetEntry(v, k, Entry(v, k)) == v
  {
    assert IdentityHolds(Mapped, v, n);
    assert Has(v, k);
    assert v[k / 1024][k % 1024 := Entry(v, k)] == v[k / 1024];
  }

  // What is left of the first loop, counting two pages for every table not made yet.
  function BootMeasure(n: nat, pointer: nat): int {
    pointer + 0x1000 + 0x2000 * (0x400 - TablesFor(n)) - n * 0x1000
  }

  // How far the first loop has come after n pages, having begun with the
  // placement pointer at start.
  ghost predicate BootReached(start: nat, n: nat, pointer: nat) {
    && (n > 0 ==> n * 0x1000 - 0x1000 < pointer + 0x1000)
    && start <= pointer <= start + 0x2000 * TablesFor(n)
    && BootEnd(pointer, TablesFor(n)) == BootEnd(start, 0)
  }

  lemma BootBegins(start: nat)
    ensures BootReached(start, 0, start)
  {
  }

  // One round: the end moves exactly when the page is the first of its table.
  lemma BootAdvances(start: nat, n: nat, pointer: nat)
    requires BootReached(start, n, pointer) && n < HEAP_TABLE * 1024 && n * 0x1000 < pointer + 0x1000
    ensures BootReached(start, n + 1, PointerAfter(n, pointer))
    ensures 0 <= BootMeasure(n + 1, PointerAfter(n, pointer)) < BootMeasure(n, pointer)
    ensures PointerAfter(n, pointer) <= start + 0x2000 * HEAP_TABLE
  {
    TablesStep(n);
  }

  // Where the loop stops for want of frames, the final end is past all frames.
  lemma BootStops(start: nat, n: nat, pointer: nat, total: nat)
    requires BootReached(start, n, pointer) && n * 0x1000 < pointer + 0x1000 && total <= n
    ensures BootEnd(start, 0) + 0x1000 > total * 0x1000
  {
  }

  // Where it ends by itself, it has reached the final end and not gone past it.
  lemma BootEnds(start: nat, n: nat, pointer: nat)
    requires BootReached(start, n, pointer) && n * 0x1000 >= pointer + 0x1000
    ensures pointer == BootEnd(start, 0) && n * 0x1000 - 0x1000 < pointer + 0x1000
  {
  }

  // One round of the first loop.
  method BootRound(dir: PageDirectory, frames: FrameMap, placement: Placement, i: nat, ghost n: nat, ghost start: nat)
    returns (ok: bool)
    requires Mapping(dir, frames, placement, n) && BootReached(start, n, placement.pointer)
    requires i == n * 0x1000 < placement.pointer + 0x1000 && n <= frames.Total() && start <= KHEAP_START
    modifies dir`slots, dir.tables, dir.physical, dir.slots.Keys, placement, frames.words
    ensures Usable(dir, frames, placement) && fresh(dir.slots.Keys - old(dir.slots.Keys))
    ensures start <= placement.pointer <= start + 0x2000 * HEAP_TABLE
    ensures ok <==> n < frames.Total()
    ensures !ok ==> BootEnd(start, 0) + 0x1000 > frames.Total() * 0x1000
    ensures ok ==> Mapping(dir, frames, placement, n + 1) && BootReached(start, n + 1, placement.pointer)
    ensures ok ==> 0 <= BootMeasure(n + 1, placement.pointer) < BootMeasure(n, old(placement.pointer))
  {
    MappingUnfold(dir, frames, placement, n);
    BootAdvances(start, n, placement.pointer);
    if frames.Total() <= n { BootStops(start, n, placement.pointer, frames.Total()); }
    assert i / 0x1000 == n;
    ok := MapRound(dir, frames, placement, i, n);
  }

  // The first boot loop maps every page up to one page past placement_pointer,
  // which each new table moves. It terminates, since a table moves the end by at
  // most two pages and covers 1024; it runs out of frames exactly when there are
  // fewer than the pages below the final end.
  method MapPlacement(dir: PageDirectory, frames: FrameMap, placement: Placement) returns (ok: bool, ghost n: nat)
    requires Mapping(dir, frames, placement, 0) && placement.pointer <= KHEAP_START
    modifies dir`slots, dir.tables, dir.physical, dir.slots.Keys, placement, frames.words
    ensures Usable(dir, frames, placement) && fresh(dir.slots.Keys - old(dir.slots.Keys))
    ensures ok <==> BootEnd(old(placement.pointer), 0) + 0x1000 <= frames.Total() * 0x1000
    ensures ok ==> Mapping(dir, frames, placement, n) && placement.pointer == BootEnd(old(placement.pointer), 0)
    ensures ok ==> n * 0x1000 - 0x1000 < placement.pointer + 0x1000 <= n * 0x1000 <= frames.Total() * 0x1000
    ensures old(placement.pointer) <= placement.pointer <= old(placement.pointer) + 0x2000 * HEAP_TABLE
  {
    ghost var start := placement.pointer;
    BootBegins(start);
    var i := 0;
    n := 0;
    while i < placement.pointer + 0x1000
      invariant i == n * 0x1000 && n <= frames.Total() && fresh(dir.slots.Keys - old(dir.slots.Keys))
      invariant Mapping(dir, frames, placement, n) && BootReached(start, n, placement.pointer)
      invariant placement.pointer <= start + 0x2000 * HEAP_TABLE
      decreases BootMeasure(n, placement.pointer)
    {
      ok := BootRound(dir, frames, placement, i, n, start);
      if !ok {
        return;
      }
      i := i + 0x1000;
      n := n + 1;
    }
    MappingUnfold(dir, frames, placement, n);
    BootEnds(start, n, placement.pointer);
    ok := true;
  }

  // How far the second loop has come: n pages are mapped, address i is next.
  ghost predicate LimitReached(start: nat, limit: nat, n0: nat, i: nat, n: nat, pointer: nat) {
    && 0x1000 <= start <= i && (i - start) % 0x1000 == 0 && start + 0x1000 <= n0 * 0x1000
    && n0 <= n && i / 0x1000 <= n && (n > n0 ==> n * 0x1000 < limit + 0x1000)
    && start <= pointer <= start + 0x2000 * (TablesFor(n) - TablesFor(n0))
  }

  // The page number the next round reaches, from pages already mapped or the first
  // that is not.
  function PagesAfter(i: nat, n: nat): nat {
    if i / 0x1000 == n then n + 1 else n
  }

  lemma LimitAdvances(start: nat, limit: nat, n0: nat, i: nat, n: nat, pointer: nat)
    requires LimitReached(start, limit, n0, i, n, pointer) && i < limit && limit % 0x1000 == 0
    requires n < HEAP_TABLE * 1024
    ensures 1 <= i / 0x1000 && i / 0x1000 * 0x1000 + 0x1000 <= limit
    ensures var pointer' := if i / 0x1000 == n then PointerAfter(n, pointer) else pointer;
            && LimitReached(start, limit, n0, i + 0x1000, PagesAfter(i, n), pointer')
            && pointer' <= start + 0x2000 * HEAP_TABLE
  {
    TablesStep(n);
    assert (i + 0x1000) / 0x1000 == i / 0x1000 + 1;
    TablesGrow(n0, n);
    TablesGrow(n0, n + 1);
  }

  // Few tables are made for many pages.
  lemma TablesGrow(m: nat, n: nat)
    requires m <= n
    ensures 0 <= TablesFor(n) - TablesFor(m) <= TablesFor(n - m)
    ensures 2 * TablesFor(n - m) <= n - m + 1
    ensures n <= HEAP_TABLE * 1024 ==> TablesFor(n) <= HEAP_TABLE
  {
  }

  // The tables this loop makes lie below the pages it has mapped.
  lemma LimitCovers(start: nat, limit: nat, n0: nat, i: nat, n: nat, pointer: nat)
    requires LimitReached(start, limit, n0, i, n, pointer)
    ensures pointer <= n * 0x1000
  {
    TablesGrow(n0, n);
  }

  // One round of the second loop.
  method LimitRound(dir: PageDirectory, frames: FrameMap, placement: Placement, limit: nat, i: nat,
                    ghost n0: nat, ghost n: nat, ghost start: nat)
    returns (ok: bool)
    requires Mapping(dir, frames, placement, n) && LimitReached(start, limit, n0, i, n, placement.pointer)
    requires i < limit && limit % 0x1000 == 0 && n <= frames.Total()
    requires placement.pointer <= start + 0x2000 * HEAP_TABLE && start + 0x2000 * 0x302 < WORD_LIMIT
    modifies dir`slots, dir.tables, dir.physical, dir.slots.Keys, placement, frames.words
    ensures Usable(dir, frames, placement) && fresh(dir.slots.Keys - old(dir.slots.Keys))
    ensures start <= placement.pointer <= start + 0x2000 * HEAP_TABLE
    ensures !ok ==> limit > frames.Total() * 0x1000
    ensures ok ==> Mapping(dir, frames, placement, PagesAfter(i, n)) && PagesAfter(i, n) <= frames.Total()
    ensures ok ==> LimitReached(start, limit, n0, i + 0x1000, PagesAfter(i, n), placement.pointer)
  {
    MappingUnfold(dir, frames, placement, n);
    LimitAdvances(start, limit, n0, i, n, placement.pointer);
    ok := MapRound(dir, frames, placement, i, n);
  }

  // The second loop maps on up to a limit, from a page already mapped. With the
  // limit on a page boundary it succeeds exactly when there are frames up to it.
  // The pages mapped then cover the tables it has made as well.
  method MapLimit(dir: PageDirectory, frames: FrameMap, placement: Placement, limit: nat, ghost n0: nat)
    returns (ok: bool, ghost n: nat)
    requires Mapping(dir, frames, placement, n0) && n0 <= frames.Total()
    requires placement.pointer + 0x1000 <= n0 * 0x1000 && placement.pointer + 0x2000 * 0x302 < WORD_LIMIT
    requires limit % 0x1000 == 0
    modifies dir`slots, dir.tables, dir.physical, dir.slots.Keys, placement, frames.words
    ensures Usable(dir, frames, placement) && fresh(dir.slots.Keys - old(dir.slots.Keys))
    ensures ok <==> limit <= frames.Total() * 0x1000
    ensures ok ==> Mapping(dir, frames, placement, n) && n0 <= n && limit <= n * 0x1000
    ensures ok ==> placement.pointer <= n * 0x1000
    ensures old(placement.pointer) <= placement.pointer <= old(placement.pointer) + 0x2000 * HEAP_TABLE
  {
    MappingUnfold(dir, frames, placement, n0);
    ghost var start := placement.pointer;
    var i := placement.pointer;
    n := n0;
    while i < limit
      invariant n <= frames.Total() && fresh(dir.slots.Keys - old(dir.slots.Keys))
      invariant Mapping(dir, frames, placement, n) && LimitReached(start, limit, n0, i, n, placement.pointer)
      invariant placement.pointer <= start + 0x2000 * HEAP_TABLE
    {
      ok := LimitRound(dir, frames, placement, limit, i, n0, n, start);
      if !ok {
        return;
      }
      n := PagesAfter(i, n);
      i := i + 0x1000;
    }
    MappingUnfold(dir, frames, placement, n);
    LimitCovers(start, limit, n0, i, n, placement.pointer);
    ok := true;
  }

  // The table of the kernel heap's 256 pages; they are all on one table, which
  // the first call of get_page makes.
  method MakeHeapTable(dir: PageDirectory, placement: Placement)
    requires dir.Valid() && dir.View() == map[] && placement.Valid() && dir.Placed(placement.pointer)
    requires 0x1000 <= placement.pointer && placement.pointer + 0x4000 < WORD_LIMIT
    modifies dir`slots, dir.tables, dir.physical, placement
    ensures dir.Valid() && placement.Valid() && dir.Placed(placement.pointer)
    ensures fresh(dir.slots.Keys - old(dir.slots.Keys))
    ensures Identity(dir.View(), 0)
    ensures placement.pointer == NextBoundary(old(placement.pointer)) + 0x1000
    ensures dir.tables[768] != null && dir.tables[768].address == placement.pointer - 0x1000
  {
    ghost var start := placement.pointer;
    var i := KHEAP_START;
    while i < KHEAP_START + 0x100000
      invariant KHEAP_START <= i <= KHEAP_START + 0x100000 && i % 0x1000 == 0
      invariant dir.Valid() && placement.Valid() && dir.Placed(placement.pointer)
      invariant fresh(dir.slots.Keys - old(dir.slots.Keys))
      invariant dir.View() == if i == KHEAP_START then map[] else map[HEAP_TABLE := BlankTable()]
      invariant placement.pointer == if i == KHEAP_START then start else NextBoundary(start) + 0x1000
      invariant i > KHEAP_START ==>
                  dir.tables[HEAP_TABLE] != null && dir.tables[HEAP_TABLE].address == placement.pointer - 0x1000
    {
      assert i / 0x1000 / 1024 == HEAP_TABLE;
      assert HEAP_TABLE in dir.View() <==> dir.tables[HEAP_TABLE] != null;
      var table, index := dir.GetPage(i, true, placement);
      i := i + 0x1000;
    }
    OnlyHeapTable();
  }

  lemma OnlyHeapTable()
    ensures Identity(map[HEAP_TABLE := BlankTable()], 0)
  {
    var v, k := map[HEAP_TABLE := BlankTable()], 0;
    forall c ensures IdentityHolds(c, v, k) { }
  }

  // Both mapping loops, with the directory at address `start`.
  method MapMemory(dir: PageDirectory, frames: FrameMap, placement: Placement, start: nat, limit: nat)
    returns (ok: bool, ghost n: nat)
    requires Mapping(dir, frames, placement, 0) && placement.pointer <= KHEAP_START && limit % 0x1000 == 0
    modifies dir, dir.tables, dir.physical, dir.slots.Keys, placement, frames.words
    ensures Usable(dir, frames, placement)
    ensures ok <==> BootEnd(old(placement.pointer), 0) + 0x1000 <= frames.Total() * 0x1000
                    && limit <= frames.Total() * 0x1000
    ensures ok ==> Mapping(dir, frames, placement, n) && placement.pointer <= n * 0x1000
    ensures ok ==> BootEnd(old(placement.pointer), 0) + 0x1000 <= n * 0x1000 && limit <= n * 0x1000
    ensures old(placement.pointer) <= placement.pointer
    ensures ok ==> placement.pointer <= BootEnd(old(placement.pointer), 0) + 0x2000 * HEAP_TABLE
    ensures ok ==> dir.physicalAddr == start + 0x1000
  {
    ghost var n0;
    ok, n0 := MapPlacement(dir, frames, placement);
    dir.physicalAddr := start + 0x1000;
    n := n0;
    if ok {
      ok, n := MapLimit(dir, frames, placement, limit, n0);
    }
  }

  // Every table of the directory lies on a page that is mapped onto itself.
  lemma TablesAreMapped(dir: PageDirectory, p: nat, n: nat, t: nat)
    requires dir.Valid() && dir.Placed(p) && Identity(dir.View(), n) && p <= n * 0x1000
    requires t < 1024 && dir.tables[t] != null
    ensures Has(dir.View(), dir.tables[t].address / 0x1000)
    ensures Entry(dir.View(), dir.tables[t].address / 0x1000).frame * 0x1000 == dir.tables[t].address
  {
    MappedEntry(dir.View(), n, dir.tables[t].address / 0x1000);
  }

  // Where the tables begin that the boot loops make: behind the bitmap, the
  // directory and the table of the heap, all placed from pointer on.
  function TablesStart(pointer: nat, words: nat): (p: nat)
    ensures pointer + words <= p <= pointer + words + 0x5000
  {
    NextBoundary(NextBoundary(pointer + words) + 0x2004) + 0x1000
  }

  // The bitmap, in a block with a byte for each of its words.
  method PlaceBitmap(memEnd: nat, before: seq<nat>, placement: Placement) returns (frames: FrameMap)
    requires placement.Valid() && placement.pointer <= KHEAP_START - 0x6000 - memEnd
    requires memEnd < KHEAP_START && |before| == memEnd / 0x1000 / 32 && WordsOk(before)
    modifies placement
    ensures placement.Valid() && placement.pointer == old(placement.pointer) + |before|
    ensures placement.blocks == old(placement.blocks) + [Extent(old(placement.pointer), memEnd / 0x1000 / 32)]
    ensures fresh(frames) && fresh(frames.words) && frames.Valid()
    ensures frames.Total() == 32 * |before| < HEAP_TABLE * 1024
    ensures frames.HandedOut(0) <==> Blank(before)
  {
    var nframes := memEnd / 0x1000;
    var bitmap, bitmapPhys := placement.Kmalloc(nframes / 32, false);
    frames := new FrameMap(nframes, before);
  }

  lemma DirectoryPages(bitmapEnd: nat, start: nat, end: nat)
    requires start == NextBoundary(bitmapEnd) && end == NextBoundary(start + 0x2004) + 0x1000
    ensures bitmapEnd < start <= bitmapEnd + 0x1000 && start % 0x1000 == 0 && end == start + 0x4000
  {
  }

  // The directory, zeroed, on a page of its own.
  method NoTables(placement: Placement) returns (dir: PageDirectory, start: nat)
    requires placement.Valid() && 0x1000 <= placement.pointer < KHEAP_START
    modifies placement
    ensures placement.Valid() && fresh(dir) && fresh(dir.tables) && fresh(dir.physical) && dir.slots == map[]
    ensures dir.Valid() && dir.View() == map[] && dir.floor == start + 0x2004 && dir.Placed(placement.pointer)
    ensures start == NextBoundary(old(placement.pointer)) && placement.pointer == start + 0x2004
  {
    var phys;
    start, phys := placement.Kmalloc(0x2004, true);
    dir := new PageDirectory(start + 0x2004);
    assert dir.View() == map[];
  }

  // The directory with the table of the heap.
  method HeapTableOnly(placement: Placement) returns (dir: PageDirectory, start: nat)
    requires placement.Valid() && 0x1000 <= placement.pointer < KHEAP_START
    modifies placement
    ensures placement.Valid() && fresh(dir) && fresh(dir.tables) && fresh(dir.physical) && fresh(dir.slots.Keys)
    ensures dir.Valid() && Identity(dir.View(), 0) && dir.floor == start + 0x2004 && dir.Placed(placement.pointer)
    ensures old(placement.pointer) < start <= old(placement.pointer) + 0x1000 && start % 0x1000 == 0
    ensures start == NextBoundary(old(placement.pointer)) && placement.pointer == start + 0x4000
    ensures placement.pointer == NextBoundary(start + 0x2004) + 0x1000
    ensures dir.tables[768] != null && dir.tables[768].address == start + 0x3000
  {
    dir, start := NoTables(placement);
    MakeHeapTable(dir, placement);
    DirectoryPages(old(placement.pointer), start, placement.pointer);
  }

  // The bitmap, the directory, and the table of the heap. With a blank bitmap, and
  // only then, no frame is taken yet.
  method PlaceDirectory(memEnd: nat, before: seq<nat>, placement: Placement)
    returns (dir: PageDirectory, frames: FrameMap, start: nat)
    requires placement.Valid() && 0x1000 <= placement.pointer && placement.pointer <= KHEAP_START - 0x6000 - memEnd
    requires memEnd < KHEAP_START && |before| == memEnd / 0x1000 / 32 && WordsOk(before)
    modifies placement
    ensures fresh(dir) && fresh(dir.tables) && fresh(dir.physical) && fresh(dir.slots.Keys)
    ensures fresh(frames) && fresh(frames.words) && frames.Total() == 32 * |before|
    ensures Usable(dir, frames, placement) && Identity(dir.View(), 0) && (frames.HandedOut(0) <==> Blank(before))
    ensures start == NextBoundary(old(placement.pointer) + |before|)
    ensures placement.pointer == TablesStart(old(placement.pointer), |before|)
    ensures old(placement.pointer) + |before| < start <= old(placement.pointer) + |before| + 0x1000
    ensures start % 0x1000 == 0 && dir.floor == start + 0x2004
    ensures dir.tables[768] != null && dir.tables[768].address == start + 0x3000
    ensures placement.pointer == start + 0x4000
  {
    frames := PlaceBitmap(memEnd, before, placement);
    ghost var words, blank := frames.words[..], frames.HandedOut(0);
    dir, start := HeapTableOnly(placement);
    assert frames.words[..] == words && (frames.HandedOut(0) <==> blank);
  }

  // `init_paging` for memEnd bytes of memory, mapped up to limit: it succeeds
  // exactly when the frames reach both the end of the first loop and the limit.
  // Then every page below n is mapped onto its own number, and n covers the end of
  // the first loop, the limit, and the final placement pointer with all the tables.
  // The directory's 0x2004 bytes begin on the next page boundary behind the bitmap,
  // and no table lies below their end.
  method InitPaging(memEnd: nat, limit: nat, before: seq<nat>, placement: Placement)
    returns (dir: PageDirectory, frames: FrameMap, ok: bool, ghost n: nat)
    requires placement.Valid() && 0x1000 <= placement.pointer && placement.pointer <= KHEAP_START - 0x6000 - memEnd
    requires limit % 0x1000 == 0 && memEnd < KHEAP_START
    requires |before| == memEnd / 0x1000 / 32 && WordsOk(before) && Blank(before)
    modifies placement
    ensures Usable(dir, frames, placement) && fresh(dir) && fresh(frames) && fresh(frames.words)
    ensures old(placement.pointer) <= placement.pointer && frames.Total() == 32 * |before|
    ensures var end := BootEnd(TablesStart(old(placement.pointer), |before|), 0) + 0x1000;
            && (ok <==> end <= frames.Total() * 0x1000 && limit <= frames.Total() * 0x1000)
            && (ok ==> end <= n * 0x1000 && limit <= n * 0x1000 && placement.pointer <= end + 0x2000 * HEAP_TABLE)
    ensures ok ==> Mapping(dir, frames, placement, n) && placement.pointer <= n * 0x1000
    ensures var start, bitmapEnd := dir.floor - 0x2004, old(placement.pointer) + |before|;
            && bitmapEnd < start <= bitmapEnd + 0x1000 && start % 0x1000 == 0
            && (ok ==> dir.physicalAddr == start + 0x1000)
            && forall t :: 0 <= t < 1024 && dir.tables[t] != null ==> start + 0x2004 <= dir.tables[t].address
  {
    var start;
    dir, frames, start := PlaceDirectory(memEnd, before, placement);
    ok, n := MapMemory(dir, frames, placement, start, limit);
  }

  // The bitmap has a byte of its block for each of its words. Its words end before the
  // directory, the block placed next, exactly when that is far enough behind.
  lemma BitmapClearOfDirectory(pointer: nat, words: nat)
    ensures pointer + 4 * words <= NextBoundary(pointer + words) <==> 3 * words + (pointer + words) % 0x1000 <= 0x1000
  {
  }

  // With the 16 MB of frames and the 32 MB limit that init_paging is compiled
  // with, it cannot succeed.
  lemma BuiltInLimitUnreachable(memEnd: nat, limit: nat)
    requires memEnd == 0x0100_0000 && limit == 0x0200_0000
    ensures !(limit <= memEnd / 0x1000 / 32 * 32 * 0x1000)
  {
  }
}
