// Cloning an address space (task.c): kernel tables are shared, every other table
// is copied frame by frame into fresh frames.
module Cloning {
  import opened Bits
  import opened Frames
  import opened HeapState
  import opened KernelHeap
  import opened KernelMalloc
  import opened Paging
  import opened RamModel
  import opened TableClears

  // ----- What a clone looks like -----

  // How many of the first i entries have a frame.
  function Rank(src: seq<Page>, i: nat): nat
    requires i <= |src|
  {
    if i == 0 then 0 else Rank(src, i - 1) + if src[i - 1].frame != 0 then 1 else 0
  }

  // How many frames a clone of the table needs.
  function FramesIn(src: seq<Page>): nat {
    Rank(src, |src|)
  }

  // The clone of entry i when n frames were taken before: the frame after those
  // of earlier entries, present and user, the other flags as in the source.
  function ClonedEntry(src: seq<Page>, i: nat, n: nat): Page
    requires i < |src|
  {
    if src[i].frame == 0 then NO_PAGE
    else Page(true, src[i].rw, true, src[i].accessed, src[i].dirty, n + Rank(src, i))
  }

  ghost predicate IsClone(src: seq<Page>, dst: seq<Page>, n: nat) {
    |dst| == |src| && forall i :: 0 <= i < |src| ==> dst[i] == ClonedEntry(src, i, n)
  }

  // Word w of frame f.
  function FrameWord(m: Memory, f: int, w: int): int {
    Rd(m, f * 0x1000 + 4 * w)
  }

  ghost predicate SameFrame(m: Memory, f: int, m': Memory, f': int) {
    forall w :: 0 <= w < 0x400 ==> FrameWord(m', f', w) == FrameWord(m, f, w)
  }

  // Frames in [n, end) and memory below page lo, where the heap is, may have
  // changed, and nothing else.
  ghost predicate OnlyFrames(lo: nat, m: Memory, m': Memory, n: nat, end: nat) {
    forall x :: Rd(m', x) != Rd(m, x) ==> (lo > 0 && x < lo * 0x1000) || n * 0x1000 <= x < end * 0x1000
  }

  lemma {:induction false} RankGrows(src: seq<Page>, i: nat, j: nat)
    requires i <= j <= |src|
    ensures Rank(src, i) <= Rank(src, j) <= Rank(src, i) + (j - i)
    decreases j - i
  {
    if i < j { RankGrows(src, i, j - 1); }
  }

  // Every entry with a frame has one in [lo, n).
  ghost predicate FramesWithin(src: seq<Page>, lo: nat, n: nat) {
    forall i :: 0 <= i < |src| ==> src[i].frame == 0 || lo <= src[i].frame < n
  }

  // ----- Copying a frame -----

  // `copy_page_physical`: 0x400 words, in ascending order.
  method CopyPagePhysical(ram: Ram, src: nat, dst: nat)
    requires src + 0x1000 <= dst || dst + 0x1000 <= src
    modifies ram
    ensures forall i :: 0 <= i < 0x400 ==> Rd(ram.m, dst + 4 * i) == Rd(old(ram.m), src + 4 * i)
    ensures forall x :: Rd(ram.m, x) != Rd(old(ram.m), x) ==> dst <= x < dst + 0x1000
  {
    var from, to, left := src, dst, 0x400;
    while left != 0
      invariant 0 <= left <= 0x400 && from == src + 4 * (0x400 - left) && to == dst + 4 * (0x400 - left)
      invariant forall i :: 0 <= i < 0x400 - left ==> Rd(ram.m, dst + 4 * i) == Rd(old(ram.m), src + 4 * i)
      invariant forall x :: Rd(ram.m, x) != Rd(old(ram.m), x) ==> dst <= x < dst + 4 * (0x400 - left)
    {
      assert Rd(ram.m, from) == Rd(old(ram.m), from);
      ram.Store(to, Rd(ram.m, from));
      from, to, left := from + 4, to + 4, left - 1;
    }
  }

  // One frame into another.
  method CopyFrame(ram: Ram, src: nat, dst: nat)
    requires src != dst
    modifies ram
    ensures SameFrame(old(ram.m), src, ram.m, dst) && OnlyFrames(0, old(ram.m), ram.m, dst, dst + 1)
  {
    CopyPagePhysical(ram, src * 0x1000, dst * 0x1000);
  }

  // ----- Copying a table -----

  // Every flag set in the source is set in the copy; none is cleared.
  function WithFlags(dst: Page, src: Page): (p: Page)
    ensures p.frame == dst.frame
    ensures (p.present <==> dst.present || src.present) && (p.rw <==> dst.rw || src.rw)
    ensures (p.user <==> dst.user || src.user) && (p.accessed <==> dst.accessed || src.accessed)
    ensures p.dirty <==> dst.dirty || src.dirty
  {
    var p1 := if src.present then dst.(present := true) else dst;
    var p2 := if src.rw then p1.(rw := true) else p1;
    var p3 := if src.user then p2.(user := true) else p2;
    var p4 := if src.accessed then p3.(accessed := true) else p3;
    if src.dirty then p4.(dirty := true) else p4
  }

  // One entry: a fresh frame, the source's flags, a copy of the words.
  method CloneEntry(ram: Ram, frames: FrameMap, src: array<Page>, dst: array<Page>, i: nat, ghost n: nat)
    returns (ok: bool)
    requires frames.Valid() && frames.HandedOut(n) && src != dst
    requires i < src.Length == dst.Length && dst[i] == NO_PAGE
    requires src[i].frame == 0 || src[i].frame < n
    modifies ram, frames.words, dst
    ensures frames.Valid() && dst[..] == old(dst[..])[i := dst[i]]
    ensures src[i].frame == 0 ==> ok && dst[i] == NO_PAGE && frames.HandedOut(n) && ram.m == old(ram.m)
    ensures src[i].frame != 0 ==> (ok <==> n < frames.Total())
    ensures src[i].frame != 0 && ok ==>
              && frames.HandedOut(n + 1)
              && dst[i] == Page(true, src[i].rw, true, src[i].accessed, src[i].dirty, n)
              && SameFrame(old(ram.m), src[i].frame, ram.m, n)
              && OnlyFrames(0, old(ram.m), ram.m, n, n + 1)
    ensures !ok ==> frames.HandedOut(n) && ram.m == old(ram.m)
  {
    ok := true;
    if src[i].frame != 0 {
      ok := frames.AllocFrame(dst, i, false, false, n);
      if !ok {
        return;
      }
      dst[i] := WithFlags(dst[i], src[i]);
      CopyFrame(ram, src[i].frame, dst[i].frame);
    }
  }

  // The first i entries of src are cloned into dst, the rest are still blank.
  ghost predicate EntriesUpTo(src: seq<Page>, dst: seq<Page>, i: nat, n: nat) {
    && i <= |src| == |dst|
    && (forall j :: 0 <= j < i ==> dst[j] == ClonedEntry(src, j, n))
    && (forall j :: i <= j < |src| ==> dst[j] == NO_PAGE)
  }

  // The frame of entry j, if it has one, is copied to its clone's frame.
  ghost predicate CopyOf(src: seq<Page>, j: nat, n: nat, m0: Memory, m: Memory)
    requires j < |src|
  {
    src[j].frame != 0 ==> SameFrame(m0, src[j].frame, m, n + Rank(src, j))
  }

  ghost predicate CopiesUpTo(src: seq<Page>, i: nat, n: nat, m0: Memory, m: Memory) {
    i <= |src| && forall j :: 0 <= j < i ==> CopyOf(src, j, n, m0, m)
  }

  lemma SameFrameApart(lo: nat, m0: Memory, m: Memory, m': Memory, f: int, f': nat, a: nat, end: nat)
    requires SameFrame(m0, f, m, f') && OnlyFrames(lo, m, m', a, end) && lo <= f' < a
    ensures SameFrame(m0, f, m', f')
  {
    forall w | 0 <= w < 0x400 ensures FrameWord(m', f', w) == FrameWord(m0, f, w) {
      assert FrameWord(m, f', w) == FrameWord(m0, f, w);
    }
  }

  lemma SameFrameFrom(lo: nat, m0: Memory, m: Memory, m': Memory, f: nat, f': int, n: nat, end: nat)
    requires SameFrame(m, f, m', f') && OnlyFrames(lo, m0, m, n, end) && lo <= f < n
    ensures SameFrame(m0, f, m', f')
  {
    forall w | 0 <= w < 0x400 ensures FrameWord(m', f', w) == FrameWord(m0, f, w) {
      assert FrameWord(m', f', w) == FrameWord(m, f, w);
      assert FrameWord(m, f, w) == FrameWord(m0, f, w);
    }
  }

  lemma CopiesStep(src: seq<Page>, i: nat, n: nat, m0: Memory, m: Memory, m': Memory)
    requires CopiesUpTo(src, i, n, m0, m) && i < |src| && (src[i].frame == 0 || src[i].frame < n)
    requires OnlyFrames(0, m0, m, n, n + Rank(src, i))
    requires src[i].frame == 0 ==> m' == m
    requires src[i].frame != 0 ==> SameFrame(m, src[i].frame, m', n + Rank(src, i))
                                   && OnlyFrames(0, m, m', n + Rank(src, i), n + Rank(src, i) + 1)
    ensures CopiesUpTo(src, i + 1, n, m0, m') && OnlyFrames(0, m0, m', n, n + Rank(src, i + 1))
  {
    var a := n + Rank(src, i);
    forall j | 0 <= j < i + 1 ensures CopyOf(src, j, n, m0, m') {
      if j < i {
        assert CopyOf(src, j, n, m0, m);
        if src[i].frame != 0 && src[j].frame != 0 {
          RankGrows(src, j + 1, i);
          SameFrameApart(0, m0, m, m', src[j].frame, n + Rank(src, j), a, a + 1);
        }
      } else if src[i].frame != 0 {
        SameFrameFrom(0, m0, m, m', src[i].frame, a, n, a);
      }
    }
  }

  lemma EntriesStep(src: seq<Page>, dst: seq<Page>, dst': seq<Page>, i: nat, n: nat)
    requires EntriesUpTo(src, dst, i, n) && i < |src| && dst' == dst[i := ClonedEntry(src, i, n)]
    ensures EntriesUpTo(src, dst', i + 1, n)
  {
  }

  // The loop of `clone_table`.
  method CopyEntries(ram: Ram, frames: FrameMap, src: array<Page>, dst: array<Page>, ghost n: nat,
                     ghost entries: seq<Page>)
    returns (ok: bool)
    requires frames.Valid() && frames.HandedOut(n) && src != dst
    requires src.Length == dst.Length == 1024 && entries == src[..] && FramesWithin(entries, 0, n)
    requires forall i :: 0 <= i < 1024 ==> dst[i] == NO_PAGE
    modifies ram, frames.words, dst
    ensures frames.Valid() && OnlyFrames(0, old(ram.m), ram.m, n, n + FramesIn(entries))
    ensures ok <==> n + FramesIn(entries) <= frames.Total()
    ensures ok ==> frames.HandedOut(n + FramesIn(entries)) && TableClone(entries, dst[..], n, old(ram.m), ram.m)
  {
    ghost var m0 := ram.m;
    var i := 0;
    while i < 1024
      invariant 0 <= i <= 1024 && src[..] == entries && frames.Valid() && frames.HandedOut(n + Rank(entries, i))
      invariant EntriesUpTo(entries, dst[..], i, n)
      invariant CopiesUpTo(entries, i, n, m0, ram.m) && OnlyFrames(0, m0, ram.m, n, n + Rank(entries, i))
    {
      ghost var d, m := dst[..], ram.m;
      RankGrows(entries, i + 1, |entries|);
      assert dst[i] == NO_PAGE by { assert d[i] == NO_PAGE; }
      assert src[i].frame == 0 || src[i].frame < n by { assert entries[i].frame == 0 || entries[i].frame < n; }
      ok := CloneEntry(ram, frames, src, dst, i, n + Rank(entries, i));
      if !ok {
        return;
      }
      EntriesStep(entries, d, dst[..], i, n);
      CopiesStep(entries, i, n, m0, m, ram.m);
      i := i + 1;
    }
    ok := true;
  }

  // dst is a clone of table src with its frames from base on.
  ghost predicate TableClone(src: seq<Page>, dst: seq<Page>, base: nat, m0: Memory, m: Memory) {
    IsClone(src, dst, base) && CopiesUpTo(src, |src|, base, m0, m)
  }

  lemma CloneRebased(lo: nat, src: seq<Page>, dst: seq<Page>, base: nat, n: nat, m0: Memory, m: Memory, m': Memory)
    requires TableClone(src, dst, base, m, m') && OnlyFrames(lo, m0, m, n, base) && FramesWithin(src, lo, n)
    ensures TableClone(src, dst, base, m0, m')
  {
    forall j | 0 <= j < |src| ensures CopyOf(src, j, base, m0, m') {
      assert CopyOf(src, j, base, m, m');
      if src[j].frame != 0 { SameFrameFrom(lo, m0, m, m', src[j].frame, base + Rank(src, j), n, base); }
    }
  }

  lemma CloneKept(lo: nat, src: seq<Page>, dst: seq<Page>, base: nat, m0: Memory, m: Memory, m': Memory,
                  a: nat, end: nat)
    requires TableClone(src, dst, base, m0, m) && OnlyFrames(lo, m, m', a, end)
    requires lo <= base && base + FramesIn(src) <= a
    ensures TableClone(src, dst, base, m0, m')
  {
    forall j | 0 <= j < |src| ensures CopyOf(src, j, base, m0, m') {
      assert CopyOf(src, j, base, m0, m);
      if src[j].frame != 0 {
        RankGrows(src, j + 1, |src|);
        SameFrameApart(lo, m0, m, m', src[j].frame, base + Rank(src, j), a, end);
      }
    }
  }

  // Memory the copy of a table may take.
  const TABLE_COST: nat := 0x4000

  // The clear of the next table, or of c tables, does the heap no harm.
  ghost predicate Clean(g: State, c: nat)
    decreases c
  {
    c > 0 ==>
      && Inv(g) && Serves(g, TABLE_SIZE, true) && ClearsCleanly(g)
      && Clean(Served(g, TABLE_SIZE, true).0, c - 1)
  }

  // How the heap goes on when a table is taken from it and cleared, and when none
  // is: intact exactly when the clear spares it. Before init_heap there is none.
  datatype TakenClause = Growing | Sparing

  ghost predicate TakenHolds(c: TakenClause, started: bool, g: State, g': State, copies: bool, intact: bool) {
    match c
    case Growing =>
      started ==>
        && Inv(g) && (!copies ==> g' == g)
        && (copies ==> Serves(g, TABLE_SIZE, true) && g' == Served(g, TABLE_SIZE, true).0)
    case Sparing => intact <==> (started && copies ==> ClearsCleanly(g))
  }

  ghost predicate Taken(started: bool, g: State, g': State, copies: bool, intact: bool) {
    forall c :: TakenHolds(c, started, g, g', copies, intact)
  }

  lemma TableTaken(started: bool, g: State, g': State, p: int, intact: bool)
    requires WasServed(started, g, g', p, TABLE_SIZE) && Outlives(started, g', p, intact)
    ensures Taken(started, g, g', true, intact)
  {
    assert ServedHolds(OfHeap, started, g, g', p, TABLE_SIZE) && OutlivesHolds(OfHeap, started, g', p, intact);
    if started { TablePlaced(g); }
    forall c ensures TakenHolds(c, started, g, g', true, intact) { }
  }

  lemma NothingTaken(started: bool, g: State)
    requires started ==> Inv(g)
    ensures Taken(started, g, g, false, true)
  {
    forall c ensures TakenHolds(c, started, g, g, false, true) { }
  }

  lemma AboveIsOnly(lo: nat, m: Memory, m': Memory, n: nat)
    requires Above(m, m', lo * 0x1000) && 0 < lo
    ensures OnlyFrames(lo, m, m', n, n)
  {
  }

  // `clone_table`, the source's frames being above the heap. It runs out of frames
  // exactly when there are fewer free than the source has entries with a frame. Its
  // clear keeps the heap exactly when it is clean; if not, intact is false, and the
  // heap is lost.
  method CloneTable(store: Store, frames: FrameMap, src: PageTable, ghost n: nat, ghost entries: seq<Page>)
    returns (table: PageTable, phys: nat, ok: bool, intact: bool)
    requires store.Valid() && frames.Valid() && frames.HandedOut(n) && store.low <= n && store.Room() > TABLE_COST
    requires frames.words != store.kernel.physical
    requires src.pages.Length == 1024 && entries == src.pages[..] && FramesWithin(entries, store.low, n)
    modifies store.placement, store.ram, store.heap`heapEnd, store.heap`heads, store.heap`newest, store.heap`g,
             store.heap.bigs, frames.words
    ensures frames.Valid() && store.Room() >= old(store.Room()) - 0x4000
    ensures (store.Valid() <==> intact) && Taken(store.started, old(store.heap.g), store.heap.g, true, intact)
    ensures intact ==> Kept(old(store.heap.g), old(store.ram.m), store.heap.g, store.ram.m)
    ensures fresh(table) && fresh(table.pages) && table.pages.Length == 1024
    ensures phys == table.address && table.address % 0x1000 == 0
    ensures !store.started ==> table.address == NextBoundary(old(store.placement.pointer))
    ensures store.started ==>
              table.address in store.heap.g.live && table.address !in old(store.heap.g.live)
              && 0x1000 <= Capacity(store.heap.g, table.address)
    ensures OnlyFrames(store.low, old(store.ram.m), store.ram.m, n, n + FramesIn(entries))
    ensures ok <==> n + FramesIn(entries) <= frames.Total()
    ensures ok ==> frames.HandedOut(n + FramesIn(entries))
                   && TableClone(entries, table.pages[..], n, old(store.ram.m), store.ram.m)
  {
    ghost var g0, m0 := store.heap.g, store.ram.m;
    var start;
    start, phys, intact := store.Cleared(TABLE_SIZE);
    store.ValidIs();
    TableTaken(store.started, g0, store.heap.g, start, intact);
    ghost var m1 := store.ram.m;
    table := new PageTable(start);
    assert FramesWithin(entries, 0, n);
    ok := CopyEntries(store.ram, frames, src.pages, table.pages, n, entries);
    AboveIsOnly(store.low, m0, m1, n);
    OnlyFramesFurther(store.low, m0, m1, store.ram.m, n, n, n + FramesIn(entries));
    store.Agree(m1, store.ram.m);
    store.ValidIs();
    if intact { KeptFurther(g0, m0, store.heap.g, m1, store.heap.g, store.ram.m); }
    if ok { CloneRebased(store.low, entries, table.pages[..], n, n, m0, m1, store.ram.m); }
  }

  // ----- Copying a directory -----

  // The table of slot t is the kernel's own.
  predicate Shared(src: seq<PageTable?>, kernel: seq<PageTable?>, t: nat)
    requires t < |src| == |kernel|
  {
    src[t] != null && kernel[t] == src[t]
  }

  // Frames used by the copies of the tables in slots below t.
  ghost function Used(v: Tables, src: seq<PageTable?>, kernel: seq<PageTable?>, t: nat): nat
    requires t <= |src| == |kernel|
  {
    if t == 0 then 0
    else Used(v, src, kernel, t - 1) +
         if t - 1 in v && !Shared(src, kernel, t - 1) then FramesIn(v[t - 1]) else 0
  }

  ghost function Needed(v: Tables, src: seq<PageTable?>, kernel: seq<PageTable?>): nat
    requires |src| == |kernel|
  {
    Used(v, src, kernel, |src|)
  }

  // Slot t gets a copy of its table.
  predicate Copied(src: seq<PageTable?>, kernel: seq<PageTable?>, t: nat)
    requires t < |src| == |kernel|
  {
    src[t] != null && !Shared(src, kernel, t)
  }

  // How many of the last slots do.
  ghost function Left(src: seq<PageTable?>, kernel: seq<PageTable?>, last: nat): nat
    requires last <= |src| == |kernel|
  {
    if last == 0 then 0
    else (if Copied(src, kernel, |src| - last) then 1 else 0) + Left(src, kernel, last - 1)
  }

  lemma LeftStep(src: seq<PageTable?>, kernel: seq<PageTable?>, t: nat)
    requires t < |src| == |kernel|
    ensures Left(src, kernel, |src| - t) ==
            (if Copied(src, kernel, t) then 1 else 0) + Left(src, kernel, |src| - (t + 1))
  {
  }

  // A directory's arrays and the entries behind them.
  datatype Snapshot = Snapshot(tables: seq<PageTable?>, physical: seq<nat>, view: Tables)

  ghost predicate Sized(s: Snapshot) {
    |s.tables| == |s.physical| == 1024
  }

  // Slot t of the new directory: empty where the source is, the same table where
  // it is the kernel's, a clone of the table elsewhere.
  ghost predicate SlotCloned(src: Snapshot, kernel: seq<PageTable?>, dst: Snapshot, t: nat, n: nat,
                             m0: Memory, m: Memory)
    requires Sized(src) && Sized(dst) && |kernel| == 1024 && t < 1024
  {
    if src.tables[t] == null || t !in src.view then
      dst.tables[t] == null && t !in dst.view && dst.physical[t] == 0
    else if Shared(src.tables, kernel, t) then
      && dst.tables[t] == src.tables[t] && dst.physical[t] == src.physical[t]
      && t in dst.view && dst.view[t] == src.view[t]
    else
      && dst.tables[t] != null && dst.tables[t] != src.tables[t] && dst.physical[t] == Or(dst.tables[t].address, 7)
      && t in dst.view
      && TableClone(src.view[t], dst.view[t], n + Used(src.view, src.tables, kernel, t), m0, m)
  }

  ghost predicate SlotsCloned(src: Snapshot, kernel: seq<PageTable?>, dst: Snapshot, i: nat, n: nat,
                              m0: Memory, m: Memory)
    requires Sized(src) && Sized(dst) && |kernel| == 1024 && i <= 1024
  {
    forall t :: 0 <= t < i ==> SlotCloned(src, kernel, dst, t, n, m0, m)
  }

  // d' is d with slot i filled, or d itself.
  ghost predicate SlotWritten(d: Snapshot, d': Snapshot, i: nat)
    requires Sized(d) && Sized(d') && i < 1024
  {
    && d'.tables == d.tables[i := d'.tables[i]] && d'.physical == d.physical[i := d'.physical[i]]
    && (forall t :: t != i ==> (t in d'.view <==> t in d.view))
    && (forall t :: t != i && t in d.view ==> d'.view[t] == d.view[t])
  }

  // Filling slot i leaves the earlier ones as they are.
  lemma SlotsStep(lo: nat, src: Snapshot, kernel: seq<PageTable?>, dst: Snapshot, dst': Snapshot, i: nat, n: nat,
                  m0: Memory, m: Memory, m': Memory, end: nat)
    requires Sized(src) && Sized(dst) && Sized(dst') && |kernel| == 1024 && i < 1024 && lo <= n
    requires SlotsCloned(src, kernel, dst, i, n, m0, m)
    requires SlotWritten(dst, dst', i)
    requires OnlyFrames(lo, m0, m, n, n + Used(src.view, src.tables, kernel, i))
    requires OnlyFrames(lo, m, m', n + Used(src.view, src.tables, kernel, i), end)
    requires n + Used(src.view, src.tables, kernel, i) <= end
    requires SlotCloned(src, kernel, dst', i, n, m0, m')
    ensures SlotsCloned(src, kernel, dst', i + 1, n, m0, m') && OnlyFrames(lo, m0, m', n, end)
    ensures BlankFrom(dst, i) ==> BlankFrom(dst', i + 1)
  {
    forall t | 0 <= t < i + 1 ensures SlotCloned(src, kernel, dst', t, n, m0, m') {
      if t < i { SlotKept(lo, src, kernel, dst, dst', t, i, n, m0, m, m', end); }
    }
  }

  // No slot from i on has a table.
  ghost predicate BlankFrom(s: Snapshot, i: nat)
    requires Sized(s)
  {
    forall t :: i <= t < 1024 ==> s.tables[t] == null && s.physical[t] == 0
  }

  lemma SlotKept(lo: nat, src: Snapshot, kernel: seq<PageTable?>, dst: Snapshot, dst': Snapshot, t: nat, i: nat, n: nat,
                 m0: Memory, m: Memory, m': Memory, end: nat)
    requires Sized(src) && Sized(dst) && Sized(dst') && |kernel| == 1024 && t < i < 1024 && lo <= n
    requires SlotCloned(src, kernel, dst, t, n, m0, m)
    requires dst'.tables[t] == dst.tables[t] && dst'.physical[t] == dst.physical[t]
    requires (t in dst'.view <==> t in dst.view) && (t in dst.view ==> dst'.view[t] == dst.view[t])
    requires OnlyFrames(lo, m, m', n + Used(src.view, src.tables, kernel, i), end)
    ensures SlotCloned(src, kernel, dst', t, n, m0, m')
  {
    if src.tables[t] != null && t in src.view && !Shared(src.tables, kernel, t) {
      UsedGrows(src.view, src.tables, kernel, t + 1, i);
      CloneKept(lo, src.view[t], dst.view[t], n + Used(src.view, src.tables, kernel, t), m0, m, m',
                n + Used(src.view, src.tables, kernel, i), end);
    }
  }

  lemma {:induction false} UsedGrows(v: Tables, src: seq<PageTable?>, kernel: seq<PageTable?>, t: nat, i: nat)
    requires t <= i <= |src| == |kernel|
    ensures Used(v, src, kernel, t) <= Used(v, src, kernel, i)
    decreases i - t
  {
    if t < i { UsedGrows(v, src, kernel, t, i - 1); }
  }

  ghost function Snap(dir: PageDirectory): (s: Snapshot)
    requires dir.Valid()
    reads dir`slots, dir.tables, dir.physical, dir.slots.Keys
    ensures Sized(s) && TablesOk(s.view)
    ensures forall t :: 0 <= t < 1024 ==> (t in s.view <==> s.tables[t] != null)
  {
    Snapshot(dir.tables[..], dir.physical[..], dir.View())
  }

  // The source's frames are all among the first n, those of the tables to copy
  // above the heap.
  ghost predicate SourceOk(src: Snapshot, kernel: seq<PageTable?>, lo: nat, n: nat)
    requires Sized(src) && |kernel| == 1024
  {
    forall t :: t in src.view ==>
      && 0 <= t < 1024 && FramesWithin(src.view[t], 0, n)
      && (!Shared(src.tables, kernel, t) ==> FramesWithin(src.view[t], lo, n))
  }

  // Slot i holds a table with these entries.
  ghost function Entered(d: Snapshot, i: nat, table: PageTable, phys: nat, pages: seq<Page>): (d': Snapshot)
    requires Sized(d) && i < 1024
    ensures Sized(d') && SlotWritten(d, d', i)
  {
    Snapshot(d.tables[i := table], d.physical[i := phys], d.view[i := pages])
  }

  lemma EmptySlot(s: Snapshot, kt: seq<PageTable?>, d: Snapshot, i: nat, n: nat, m0: Memory, m: Memory)
    requires Sized(s) && Sized(d) && |kt| == 1024 && i < 1024
    requires i !in s.view && d.tables[i] == null && d.physical[i] == 0 && i !in d.view
    ensures SlotWritten(d, d, i) && SlotCloned(s, kt, d, i, n, m0, m)
    ensures Used(s.view, s.tables, kt, i + 1) == Used(s.view, s.tables, kt, i)
  {
  }

  lemma SharedSlot(s: Snapshot, kt: seq<PageTable?>, d: Snapshot, i: nat, n: nat, m0: Memory, m: Memory)
    requires Sized(s) && Sized(d) && |kt| == 1024 && i < 1024
    requires i in s.view && Shared(s.tables, kt, i)
    ensures SlotCloned(s, kt, Entered(d, i, s.tables[i], s.physical[i], s.view[i]), i, n, m0, m)
    ensures Used(s.view, s.tables, kt, i + 1) == Used(s.view, s.tables, kt, i)
  {
  }

  lemma CopiedSlot(s: Snapshot, kt: seq<PageTable?>, d: Snapshot, i: nat, n: nat, m0: Memory, m: Memory,
                   table: PageTable, pages: seq<Page>, d': Snapshot)
    requires Sized(s) && Sized(d) && |kt| == 1024 && i < 1024
    requires i in s.view && s.tables[i] != null && !Shared(s.tables, kt, i) && table != s.tables[i]
    requires TableClone(s.view[i], pages, n + Used(s.view, s.tables, kt, i), m0, m)
    requires d' == Entered(d, i, table, Or(table.address, 7), pages)
    ensures SlotWritten(d, d', i) && SlotCloned(s, kt, d', i, n, m0, m)
    ensures Used(s.view, s.tables, kt, i + 1) == Used(s.view, s.tables, kt, i) + FramesIn(s.view[i])
  {
  }

  // The directory being cloned is s, with kernel tables kt; its slot i holds this table.
  ghost predicate IsSlot(s: Snapshot, kt: seq<PageTable?>, i: nat, table: PageTable?, phys: nat,
                         kernelTable: PageTable?)
    reads if table == null then {} else {table.pages}
  {
    && Sized(s) && |kt| == 1024 && i < 1024
    && s.tables[i] == table && s.physical[i] == phys && kt[i] == kernelTable
    && (i in s.view <==> table != null)
    && (table != null ==> table.pages.Length == 1024 && s.view[i] == table.pages[..])
  }

  // Objects of different kinds that hold words or tables are not the same.
  ghost predicate Apart(store: Store, frames: FrameMap, dir: PageDirectory) {
    && frames.words != dir.physical && frames.words != store.kernel.physical
    && dir != store.kernel && dir.tables != store.kernel.tables && dir.physical != store.kernel.physical
  }

  // Put a table into slot i of a directory that holds d.
  method ShareSlot(table: PageTable, phys: nat, dir: PageDirectory, i: nat, ghost d: Snapshot, ghost entries: seq<Page>,
                   ghost store: Store, ghost frames: FrameMap, ghost n: nat)
    requires dir.Valid() && i < 1024 && d == Snap(dir) && d.tables[i] == null
    requires table.pages.Length == 1024 && entries == table.pages[..] && table.pages !in dir.slots
    requires frames.Valid() && frames.HandedOut(n) && Apart(store, frames, dir)
    modifies dir`slots, dir.tables, dir.physical
    ensures (store.Valid() <==> old(store.Valid())) && frames.Valid() && frames.HandedOut(n)
    ensures dir.Valid() && dir.slots == old(dir.slots)[table.pages := i]
    ensures Snap(dir) == Entered(d, i, table, phys, entries)
  {
    dir.Enter(i, table, phys);
  }

  // Copy a table into slot i of a directory that holds d, its frames from base on.
  method CopySlot(store: Store, frames: FrameMap, src: PageTable, dir: PageDirectory, i: nat,
                  ghost n: nat, ghost base: nat, ghost m0: Memory, ghost d: Snapshot, ghost entries: seq<Page>)
    returns (ok: bool, intact: bool, table: PageTable)
    requires store.Valid() && store.low <= n && store.Room() > TABLE_COST && frames.Valid() && dir.Valid()
    requires i < 1024 && d == Snap(dir) && d.tables[i] == null && Apart(store, frames, dir)
    requires n <= base && frames.HandedOut(base) && OnlyFrames(store.low, m0, store.ram.m, n, base)
    requires src.pages.Length == 1024 && entries == src.pages[..] && FramesWithin(entries, store.low, n)
    modifies store.placement, store.ram, store.heap`heapEnd, store.heap`heads, store.heap`newest, store.heap`g,
             store.heap.bigs, frames.words, dir`slots, dir.tables, dir.physical
    ensures frames.Valid() && dir.Valid() && store.Room() >= old(store.Room()) - TABLE_COST
    ensures (store.Valid() <==> intact) && Taken(store.started, old(store.heap.g), store.heap.g, true, intact)
    ensures intact ==> Kept(old(store.heap.g), old(store.ram.m), store.heap.g, store.ram.m)
    ensures OnlyFrames(store.low, old(store.ram.m), store.ram.m, base, base + FramesIn(entries))
    ensures ok <==> base + FramesIn(entries) <= frames.Total()
    ensures fresh(table) && fresh(table.pages)
    ensures ok ==>
              && frames.HandedOut(base + FramesIn(entries))
              && Snap(dir) == Entered(d, i, table, Or(table.address, 7), table.pages[..])
              && dir.slots == old(dir.slots)[table.pages := i]
              && TableClone(entries, table.pages[..], base, m0, store.ram.m)
  {
    ghost var m := store.ram.m;
    assert FramesWithin(entries, store.low, base);
    var phys;
    table, phys, ok, intact := CloneTable(store, frames, src, base, entries);
    if ok {
      CloneRebased(store.low, entries, table.pages[..], base, n, m0, m, store.ram.m);
      ShareSlot(table, Or(phys, 7), dir, i, d, table.pages[..], store, frames, base + FramesIn(entries));
    }
  }

  // An empty slot, or one with the kernel's own table.
  method LinkSlot(table: PageTable?, phys: nat, kernelTable: PageTable?, dir: PageDirectory, i: nat, ghost n: nat,
                  ghost m0: Memory, ghost m: Memory, ghost s: Snapshot, ghost kt: seq<PageTable?>, ghost d: Snapshot,
                  ghost store: Store, ghost frames: FrameMap, ghost base: nat)
    requires dir.Valid() && d == Snap(dir) && IsSlot(s, kt, i, table, phys, kernelTable)
    requires (table == null || table == kernelTable) && d.tables[i] == null && d.physical[i] == 0
    requires table != null ==> table.pages !in dir.slots
    requires store.Valid() && frames.Valid() && frames.HandedOut(base) && Apart(store, frames, dir)
    modifies dir`slots, dir.tables, dir.physical
    ensures store.Valid() && frames.Valid() && frames.HandedOut(base) && dir.Valid()
    ensures Used(s.view, s.tables, kt, i + 1) == Used(s.view, s.tables, kt, i)
    ensures SlotWritten(d, Snap(dir), i) && SlotCloned(s, kt, Snap(dir), i, n, m0, m)
    ensures forall a :: a in dir.slots && a !in old(dir.slots) ==> table != null && a == table.pages
  {
    if table == null {
      EmptySlot(s, kt, d, i, n, m0, m);
    } else {
      SharedSlot(s, kt, d, i, n, m0, m);
      ShareSlot(table, phys, dir, i, d, s.view[i], store, frames, base);
    }
  }

  // A slot with a table of the source's own.
  method CopyTable(store: Store, frames: FrameMap, table: PageTable, dir: PageDirectory, i: nat,
                   ghost n: nat, ghost base: nat, ghost m0: Memory,
                   ghost s: Snapshot, ghost kt: seq<PageTable?>, ghost d: Snapshot, ghost end: nat)
    returns (ok: bool, intact: bool)
    requires store.Valid() && store.low <= n && store.Room() > TABLE_COST && frames.Valid() && dir.Valid()
    requires Sized(s) && |kt| == 1024 && i < 1024 && d == Snap(dir) && d.tables[i] == null && Apart(store, frames, dir)
    requires i in s.view && s.tables[i] == table && !Shared(s.tables, kt, i)
    requires table.pages.Length == 1024 && s.view[i] == table.pages[..]
    requires base == n + Used(s.view, s.tables, kt, i) && end == base + FramesIn(s.view[i]) && frames.HandedOut(base)
    requires OnlyFrames(store.low, m0, store.ram.m, n, base) && FramesWithin(s.view[i], store.low, n)
    modifies store.placement, store.ram, store.heap`heapEnd, store.heap`heads, store.heap`newest, store.heap`g,
             store.heap.bigs, frames.words, dir`slots, dir.tables, dir.physical
    ensures frames.Valid() && dir.Valid() && store.Room() >= old(store.Room()) - TABLE_COST
    ensures (store.Valid() <==> intact) && Taken(store.started, old(store.heap.g), store.heap.g, true, intact)
    ensures intact ==> Kept(old(store.heap.g), old(store.ram.m), store.heap.g, store.ram.m)
    ensures OnlyFrames(store.low, old(store.ram.m), store.ram.m, base, end)
    ensures (ok <==> end <= frames.Total()) && (ok ==> frames.HandedOut(end))
    ensures ok ==> SlotWritten(d, Snap(dir), i) && SlotCloned(s, kt, Snap(dir), i, n, m0, store.ram.m)
    ensures ok ==> forall a :: a in dir.slots && a !in old(dir.slots) ==> fresh(a)
  {
    var copy;
    ok, intact, copy := CopySlot(store, frames, table, dir, i, n, base, m0, d, s.view[i]);
    if ok {
      CopiedSlot(s, kt, d, i, n, m0, store.ram.m, copy, copy.pages[..], Snap(dir));
    }
  }

  lemma UsedForCopy(s: Snapshot, kt: seq<PageTable?>, i: nat)
    requires Sized(s) && |kt| == 1024 && i < 1024 && i in s.view && !Shared(s.tables, kt, i)
    ensures Used(s.view, s.tables, kt, i + 1) == Used(s.view, s.tables, kt, i) + FramesIn(s.view[i])
  {
  }

  // One slot of the directory, which holds d so far.
  method CloneSlot(store: Store, frames: FrameMap, table: PageTable?, phys: nat,
                   kernelTable: PageTable?, dir: PageDirectory, i: nat, ghost n: nat, ghost m0: Memory,
                   ghost s: Snapshot, ghost kt: seq<PageTable?>, ghost d: Snapshot, ghost base: nat, ghost end: nat)
    returns (ok: bool, intact: bool)
    requires store.Valid() && store.low <= n && frames.Valid() && dir.Valid() && d == Snap(dir)
    requires IsSlot(s, kt, i, table, phys, kernelTable) && (Copied(s.tables, kt, i) ==> store.Room() > TABLE_COST)
    requires base == n + Used(s.view, s.tables, kt, i) && end == n + Used(s.view, s.tables, kt, i + 1)
    requires frames.HandedOut(base) && OnlyFrames(store.low, m0, store.ram.m, n, base)
    requires Apart(store, frames, dir)
    requires d.tables[i] == null && d.physical[i] == 0
    requires table != null ==> table.pages !in dir.slots
    requires table != null && table != kernelTable ==> FramesWithin(s.view[i], store.low, n)
    modifies store.placement, store.ram, store.heap`heapEnd, store.heap`heads, store.heap`newest, store.heap`g,
             store.heap.bigs, frames.words, dir`slots, dir.tables, dir.physical
    ensures frames.Valid() && dir.Valid()
    ensures store.Room() >= old(store.Room()) - if Copied(s.tables, kt, i) then TABLE_COST else 0
    ensures store.Valid() <==> intact
    ensures Taken(store.started, old(store.heap.g), store.heap.g, Copied(s.tables, kt, i), intact)
    ensures intact ==> Kept(old(store.heap.g), old(store.ram.m), store.heap.g, store.ram.m)
    ensures OnlyFrames(store.low, old(store.ram.m), store.ram.m, base, end)
    ensures (ok <==> end <= frames.Total()) && (ok ==> frames.HandedOut(end))
    ensures ok ==> SlotWritten(d, Snap(dir), i) && SlotCloned(s, kt, Snap(dir), i, n, m0, store.ram.m)
    ensures ok ==> forall a :: a in dir.slots && a !in old(dir.slots) ==>
                     fresh(a) || (table != null && a == table.pages)
  {
    assert store.started ==> Inv(store.heap.g) by {
      store.ValidIs();
      assert store.Holds(Heaping);
    }
    NothingTaken(store.started, store.heap.g);
    ok, intact := true, true;
    if table == null || kernelTable == table {
      LinkSlot(table, phys, kernelTable, dir, i, n, m0, store.ram.m, s, kt, d, store, frames, base);
    } else {
      UsedForCopy(s, kt, i);
      ok, intact := CopyTable(store, frames, table, dir, i, n, base, m0, s, kt, d, end);
    }
  }

  // The directories hold s and kt.
  datatype SourceClause = OfSource | OfKernel

  ghost predicate SourceHolds(c: SourceClause, src: PageDirectory, kernel: PageDirectory, s: Snapshot,
                              kt: seq<PageTable?>)
    reads src`slots, src.tables, src.physical, src.slots.Keys, kernel`slots, kernel.tables, kernel.physical
  {
    match c
    case OfSource => src.Valid() && s == Snap(src)
    case OfKernel => kernel.Valid() && kt == kernel.tables[..]
  }

  ghost predicate IsSource(src: PageDirectory, kernel: PageDirectory, s: Snapshot, kt: seq<PageTable?>)
    reads src`slots, src.tables, src.physical, src.slots.Keys, kernel`slots, kernel.tables, kernel.physical
  {
    forall c :: SourceHolds(c, src, kernel, s, kt)
  }

  lemma SlotOf(src: PageDirectory, kernel: PageDirectory, i: nat, s: Snapshot, kt: seq<PageTable?>)
    requires IsSource(src, kernel, s, kt) && i < 1024
    ensures src.tables.Length == src.physical.Length == kernel.tables.Length == 1024
    ensures IsSlot(s, kt, i, src.tables[i], src.physical[i], kernel.tables[i])
    ensures src.tables[i] != null ==> src.tables[i].pages in src.slots && src.slots[src.tables[i].pages] == i
  {
    assert SourceHolds(OfSource, src, kernel, s, kt) && SourceHolds(OfKernel, src, kernel, s, kt);
  }

  // One round of the loop: the slots cloned so far and the next one.
  method NextSlot(store: Store, frames: FrameMap, table: PageTable?, phys: nat, kernelTable: PageTable?,
                  dir: PageDirectory, i: nat, ghost n: nat, ghost m0: Memory, ghost g0: State,
                  ghost s: Snapshot, ghost kt: seq<PageTable?>, ghost src: PageDirectory, ghost clean: bool,
                  ghost left: nat)
    returns (ok: bool, intact: bool)
    requires store.Valid() && store.low <= n && frames.Valid() && dir.Valid()
    requires IsSlot(s, kt, i, table, phys, kernelTable) && (Copied(s.tables, kt, i) ==> store.Room() > TABLE_COST)
    requires frames.HandedOut(n + Used(s.view, s.tables, kt, i)) && Apart(store, frames, dir)
    requires OnlyFrames(store.low, m0, store.ram.m, n, n + Used(s.view, s.tables, kt, i))
    requires Kept(g0, m0, store.heap.g, store.ram.m)
    requires SourceOk(s, kt, store.low, n) && BlankFrom(Snap(dir), i)
    requires table != null ==> table.pages !in dir.slots
    requires SlotsCloned(s, kt, Snap(dir), i, n, m0, store.ram.m)
    requires IsSource(src, store.kernel, s, kt) && frames.words != src.physical
    requires CleanIs(clean, store.started, store.heap.g, (if Copied(s.tables, kt, i) then 1 else 0) + left)
    requires dir != src && dir.tables != src.tables && dir.physical != src.physical
    modifies store.placement, store.ram, store.heap`heapEnd, store.heap`heads, store.heap`newest, store.heap`g,
             store.heap.bigs, frames.words, dir`slots, dir.tables, dir.physical
    ensures IsSource(src, store.kernel, s, kt)
    ensures frames.Valid() && dir.Valid()
    ensures store.Room() >= old(store.Room()) - if Copied(s.tables, kt, i) then TABLE_COST else 0
    ensures store.Valid() <==> intact
    ensures if intact then CleanIs(clean, store.started, store.heap.g, left) else !clean
    ensures intact ==> Kept(g0, m0, store.heap.g, store.ram.m)
    ensures OnlyFrames(store.low, m0, store.ram.m, n, n + Used(s.view, s.tables, kt, i + 1))
    ensures ok <==> n + Used(s.view, s.tables, kt, i + 1) <= frames.Total()
    ensures ok ==> frames.HandedOut(n + Used(s.view, s.tables, kt, i + 1))
    ensures ok ==> SlotsCloned(s, kt, Snap(dir), i + 1, n, m0, store.ram.m) && BlankFrom(Snap(dir), i + 1)
    ensures ok ==> forall a :: a in dir.slots && a !in old(dir.slots) ==>
                     fresh(a) || (table != null && a == table.pages)
  {
    ghost var d, g, m := Snap(dir), store.heap.g, store.ram.m;
    assert d.tables[i] == null && d.physical[i] == 0;
    ghost var base, end := n + Used(s.view, s.tables, kt, i), n + Used(s.view, s.tables, kt, i + 1);
    UsedGrows(s.view, s.tables, kt, i, i + 1);
    assert table != null && table != kernelTable ==> FramesWithin(s.view[i], store.low, n);
    ok, intact := CloneSlot(store, frames, table, phys, kernelTable, dir, i, n, m0, s, kt, d, base, end);
    CleanFurther(clean, store.started, g, store.heap.g, Copied(s.tables, kt, i), intact, left);
    if intact { KeptFurther(g0, m0, g, m, store.heap.g, store.ram.m); }
    SlotAdded(store.low, s, kt, d, Snap(dir), i, n, m0, m, store.ram.m, base, end, ok);
  }

  lemma SlotAdded(lo: nat, s: Snapshot, kt: seq<PageTable?>, d: Snapshot, d': Snapshot, i: nat, n: nat,
                  m0: Memory, m: Memory, m': Memory, base: nat, end: nat, ok: bool)
    requires Sized(s) && Sized(d) && Sized(d') && |kt| == 1024 && i < 1024 && lo <= n
    requires base == n + Used(s.view, s.tables, kt, i) <= end
    requires OnlyFrames(lo, m0, m, n, base) && OnlyFrames(lo, m, m', base, end)
    requires SlotsCloned(s, kt, d, i, n, m0, m) && BlankFrom(d, i)
    requires ok ==> SlotWritten(d, d', i) && SlotCloned(s, kt, d', i, n, m0, m')
    ensures OnlyFrames(lo, m0, m', n, end)
    ensures ok ==> SlotsCloned(s, kt, d', i + 1, n, m0, m') && BlankFrom(d', i + 1)
  {
    OnlyFramesFurther(lo, m0, m, m', n, base, end);
    if ok {
      SlotsStep(lo, s, kt, d, d', i, n, m0, m, m', end);
    }
  }

  lemma OnlyFramesFurther(lo: nat, m0: Memory, m: Memory, m': Memory, n: nat, base: nat, end: nat)
    requires OnlyFrames(lo, m0, m, n, base) && n <= base <= end
    requires OnlyFrames(lo, m, m', base, end) || OnlyFrames(0, m, m', base, end)
    ensures OnlyFrames(lo, m0, m', n, end)
  {
  }

  // What a call leaves: only fresh frames and heap memory written, success exactly
  // with frames enough and clean clears, and then every slot cloned.
  ghost predicate Cloned(s: Snapshot, kt: seq<PageTable?>, d: Snapshot, lo: nat, n: nat, total: nat, clean: bool,
                         m0: Memory, m: Memory, ok: bool)
    requires Sized(s) && Sized(d) && |kt| == 1024
  {
    var end := n + Needed(s.view, s.tables, kt);
    && OnlyFrames(lo, m0, m, n, end) && (ok <==> end <= total && clean)
    && (ok ==> SlotsCloned(s, kt, d, 1024, n, m0, m))
  }

  // ----- The loop over the slots -----

  // A loop that begins with heap state g0 and memory m0, with room to be left at its
  // end, and with all clears to come clean or not.
  datatype Job = Job(s: Snapshot, kt: seq<PageTable?>, n: nat, g0: State, m0: Memory, room: int, clean: bool)

  // The clears of the next c tables do the heap, if there is one, no harm exactly
  // if clean.
  ghost predicate CleanHolds(k: HeapClause, clean: bool, started: bool, g: State, c: nat) {
    match k
    case OfHeap => clean <==> (started ==> Clean(g, c))
  }

  ghost predicate CleanIs(clean: bool, started: bool, g: State, c: nat) {
    forall k :: CleanHolds(k, clean, started, g, c)
  }

  // The same for a call, which takes a directory first.
  ghost predicate CallHolds(k: HeapClause, started: bool, g: State, c: nat) {
    match k
    case OfHeap =>
      started ==> Inv(g) && Serves(g, DIRECTORY_SIZE, true) && Clean(Served(g, DIRECTORY_SIZE, true).0, c)
  }

  ghost predicate CleanCall(started: bool, g: State, c: nat) {
    forall k :: CallHolds(k, started, g, c)
  }

  // One slot on, the tables still to come are clean exactly when they were before,
  // unless this one was not.
  lemma CleanFurther(clean: bool, started: bool, g: State, g': State, copies: bool, intact: bool, c: nat)
    requires Taken(started, g, g', copies, intact) && CleanIs(clean, started, g, (if copies then 1 else 0) + c)
    ensures if intact then CleanIs(clean, started, g', c) else !clean
  {
    assert TakenHolds(Growing, started, g, g', copies, intact) && TakenHolds(Sparing, started, g, g', copies, intact);
    assert CleanHolds(OfHeap, clean, started, g, (if copies then 1 else 0) + c);
    if intact {
      forall k ensures CleanHolds(k, clean, started, g', c) { }
    }
  }

  lemma CleanBegins(started: bool, g: State, g': State, phys: int, c: nat)
    requires WasServed(started, g, g', phys, DIRECTORY_SIZE)
    ensures CleanIs(CleanCall(started, g, c), started, g', c)
  {
    assert ServedHolds(OfHeap, started, g, g', phys, DIRECTORY_SIZE);
    assert CleanCall(started, g, c) <==> CallHolds(OfHeap, started, g, c);
    forall k ensures CleanHolds(k, CleanCall(started, g, c), started, g', c) { }
  }

  lemma CleanEnds(clean: bool, started: bool, g: State, src: seq<PageTable?>, kernel: seq<PageTable?>, last: nat)
    requires last == 0 && |src| == |kernel| && CleanIs(clean, started, g, Left(src, kernel, last))
    ensures clean
  {
    assert CleanHolds(OfHeap, clean, started, g, Left(src, kernel, last));
  }

  datatype RoundClause = Places | Numbers | Reserve | Origin | Memories | Slots | Entries | Tidy

  ghost predicate RoundHolds(c: RoundClause, store: Store, frames: FrameMap, src: PageDirectory, dir: PageDirectory,
                             j: Job, i: nat)
    requires Sized(j.s) && |j.kt| == 1024 && i <= 1024
    reads store.placement, store.kernel`slots, store.kernel.tables, store.kernel.physical, store.kernel.slots.Keys
    reads store.heap, store.heap.ram, store.heap.bigs, store.ram
    reads frames, frames.words, src`slots, src.tables, src.physical, src.slots.Keys
    reads dir`slots, dir.tables, dir.physical, dir.slots.Keys
  {
    var used := Used(j.s.view, j.s.tables, j.kt, i);
    match c
    case Places => store.Valid() && frames.Valid() && dir.Valid()
    case Numbers => frames.Valid() && frames.HandedOut(j.n + used)
    case Reserve => store.Room() >= j.room + TABLE_COST * Left(j.s.tables, j.kt, |j.s.tables| - i)
    case Origin => IsSource(src, store.kernel, j.s, j.kt)
    case Memories =>
      && Kept(j.g0, j.m0, store.heap.g, store.ram.m)
      && OnlyFrames(store.low, j.m0, store.ram.m, j.n, j.n + used)
    case Slots => dir.Valid() && SlotsCloned(j.s, j.kt, Snap(dir), i, j.n, j.m0, store.ram.m) && BlankFrom(Snap(dir), i)
    case Entries => forall a :: a in dir.slots && a in src.slots ==> src.slots[a] < i
    case Tidy => CleanIs(j.clean, store.started, store.heap.g, Left(j.s.tables, j.kt, |j.s.tables| - i))
  }

  ghost predicate Round(store: Store, frames: FrameMap, src: PageDirectory, dir: PageDirectory, j: Job, i: nat)
    requires Sized(j.s) && |j.kt| == 1024 && i <= 1024
    reads store.placement, store.kernel`slots, store.kernel.tables, store.kernel.physical, store.kernel.slots.Keys
    reads store.heap, store.heap.ram, store.heap.bigs, store.ram
    reads frames, frames.words, src`slots, src.tables, src.physical, src.slots.Keys
    reads dir`slots, dir.tables, dir.physical, dir.slots.Keys
  {
    forall c :: RoundHolds(c, store, frames, src, dir, j, i)
  }

  // What does not change from round to round.
  ghost predicate JobOk(store: Store, frames: FrameMap, src: PageDirectory, dir: PageDirectory, j: Job) {
    && Sized(j.s) && |j.kt| == 1024 && store.low <= j.n && SourceOk(j.s, j.kt, store.low, j.n) && j.room > 0
    && Apart(store, frames, dir) && frames.words != src.physical
    && dir != src && dir.tables != src.tables && dir.physical != src.physical
  }

  lemma RoundUnfold(store: Store, frames: FrameMap, src: PageDirectory, dir: PageDirectory, j: Job, i: nat)
    requires Sized(j.s) && |j.kt| == 1024 && i <= 1024 && Round(store, frames, src, dir, j, i)
    ensures store.Valid() && frames.Valid() && dir.Valid() && IsSource(src, store.kernel, j.s, j.kt)
    ensures frames.HandedOut(j.n + Used(j.s.view, j.s.tables, j.kt, i))
    ensures Kept(j.g0, j.m0, store.heap.g, store.ram.m)
    ensures OnlyFrames(store.low, j.m0, store.ram.m, j.n, j.n + Used(j.s.view, j.s.tables, j.kt, i))
    ensures SlotsCloned(j.s, j.kt, Snap(dir), i, j.n, j.m0, store.ram.m) && BlankFrom(Snap(dir), i)
    ensures CleanIs(j.clean, store.started, store.heap.g, Left(j.s.tables, j.kt, |j.s.tables| - i))
  {
    assert RoundHolds(Places, store, frames, src, dir, j, i) && RoundHolds(Numbers, store, frames, src, dir, j, i);
    assert RoundHolds(Origin, store, frames, src, dir, j, i) && RoundHolds(Memories, store, frames, src, dir, j, i);
    assert RoundHolds(Slots, store, frames, src, dir, j, i) && RoundHolds(Tidy, store, frames, src, dir, j, i);
  }

  lemma RoundFold(store: Store, frames: FrameMap, src: PageDirectory, dir: PageDirectory, j: Job, i: nat)
    requires Sized(j.s) && |j.kt| == 1024 && i <= 1024
    requires store.Valid() && frames.Valid() && dir.Valid() && IsSource(src, store.kernel, j.s, j.kt)
    requires frames.HandedOut(j.n + Used(j.s.view, j.s.tables, j.kt, i))
    requires store.Room() >= j.room + TABLE_COST * Left(j.s.tables, j.kt, |j.s.tables| - i)
    requires Kept(j.g0, j.m0, store.heap.g, store.ram.m)
    requires OnlyFrames(store.low, j.m0, store.ram.m, j.n, j.n + Used(j.s.view, j.s.tables, j.kt, i))
    requires SlotsCloned(j.s, j.kt, Snap(dir), i, j.n, j.m0, store.ram.m) && BlankFrom(Snap(dir), i)
    requires forall a :: a in dir.slots && a in src.slots ==> src.slots[a] < i
    requires CleanIs(j.clean, store.started, store.heap.g, Left(j.s.tables, j.kt, |j.s.tables| - i))
    ensures Round(store, frames, src, dir, j, i)
  {
    forall c ensures RoundHolds(c, store, frames, src, dir, j, i) { }
  }

  // Slot i and what the next round needs of it.
  lemma RoundNext(store: Store, frames: FrameMap, src: PageDirectory, dir: PageDirectory, j: Job, i: nat)
    requires Sized(j.s) && |j.kt| == 1024 && i < 1024 && Round(store, frames, src, dir, j, i) && j.room > 0
    ensures src.tables.Length == src.physical.Length == store.kernel.tables.Length == 1024
    ensures IsSlot(j.s, j.kt, i, src.tables[i], src.physical[i], store.kernel.tables[i])
    ensures src.tables[i] != null ==>
              && src.tables[i].pages !in dir.slots
              && src.tables[i].pages in src.slots && src.slots[src.tables[i].pages] == i
    ensures var cost := if Copied(j.s.tables, j.kt, i) then TABLE_COST else 0;
            && store.Room() > cost
            && store.Room() - cost >= j.room + TABLE_COST * Left(j.s.tables, j.kt, |j.s.tables| - (i + 1))
    ensures Left(j.s.tables, j.kt, |j.s.tables| - i) ==
            (if Copied(j.s.tables, j.kt, i) then 1 else 0) + Left(j.s.tables, j.kt, |j.s.tables| - (i + 1))
    ensures forall a :: a in dir.slots && a in src.slots ==> src.slots[a] < i
  {
    assert RoundHolds(Origin, store, frames, src, dir, j, i) && RoundHolds(Entries, store, frames, src, dir, j, i);
    assert RoundHolds(Reserve, store, frames, src, dir, j, i);
    LeftStep(j.s.tables, j.kt, i);
    SlotOf(src, store.kernel, i, j.s, j.kt);
  }

  // One round of the loop. It stops the loop when the frames run out, or when its
  // clear has destroyed the heap.
  method CloneRound(store: Store, frames: FrameMap, src: PageDirectory, dir: PageDirectory, i: nat, ghost j: Job)
    returns (ok: bool, intact: bool)
    requires JobOk(store, frames, src, dir, j) && i < 1024 && Round(store, frames, src, dir, j, i)
    modifies store.placement, store.ram, store.heap`heapEnd, store.heap`heads, store.heap`newest, store.heap`g,
             store.heap.bigs, frames.words, dir`slots, dir.tables, dir.physical
    ensures ok && intact ==> Round(store, frames, src, dir, j, i + 1)
    ensures frames.Valid() && dir.Valid() && IsSource(src, store.kernel, j.s, j.kt)
    ensures (store.Valid() <==> intact) && (intact ==> Kept(j.g0, j.m0, store.heap.g, store.ram.m))
    ensures OnlyFrames(store.low, j.m0, store.ram.m, j.n, j.n + Used(j.s.view, j.s.tables, j.kt, i + 1))
    ensures !ok ==> j.n + Used(j.s.view, j.s.tables, j.kt, i + 1) > frames.Total()
    ensures store.Room() >= j.room && (!intact ==> !j.clean)
  {
    RoundUnfold(store, frames, src, dir, j, i);
    RoundNext(store, frames, src, dir, j, i);
    ok, intact := NextSlot(store, frames, src.tables[i], src.physical[i], store.kernel.tables[i], dir, i, j.n, j.m0,
                           j.g0, j.s, j.kt, src, j.clean, Left(j.s.tables, j.kt, |j.s.tables| - (i + 1)));
    if ok && intact {
      RoundFold(store, frames, src, dir, j, i + 1);
    }
  }

  // The loop of `clone_directory`. It is followed as far as there are frames and a
  // heap: where the one ends the code panics, where the other is lost what it does
  // next is not known.
  method CloneSlots(store: Store, frames: FrameMap, src: PageDirectory, dir: PageDirectory, ghost j: Job)
    returns (ok: bool, intact: bool)
    requires JobOk(store, frames, src, dir, j) && Round(store, frames, src, dir, j, 0)
    modifies store.placement, store.ram, store.heap`heapEnd, store.heap`heads, store.heap`newest, store.heap`g,
             store.heap.bigs, frames.words, dir`slots, dir.tables, dir.physical
    ensures frames.Valid() && dir.Valid() && IsSource(src, store.kernel, j.s, j.kt)
    ensures (store.Valid() <==> intact) && (intact ==> Kept(j.g0, j.m0, store.heap.g, store.ram.m))
    ensures (ok ==> intact) && (!intact ==> !j.clean) && store.Room() >= j.room
    ensures Cloned(j.s, j.kt, Snap(dir), store.low, j.n, frames.Total(), j.clean, j.m0, store.ram.m, ok)
    ensures ok ==> frames.HandedOut(j.n + Needed(j.s.view, j.s.tables, j.kt))
  {
    var i := 0;
    while i < 1024
      invariant 0 <= i <= 1024 && Round(store, frames, src, dir, j, i)
    {
      ok, intact := CloneRound(store, frames, src, dir, i, j);
      if !ok || !intact {
        UsedGrows(j.s.view, j.s.tables, j.kt, i + 1, |j.s.tables|);
        ok := false;
        return;
      }
      i := i + 1;
    }
    RoundUnfold(store, frames, src, dir, j, i);
    assert RoundHolds(Reserve, store, frames, src, dir, j, i);
    CleanEnds(j.clean, store.started, store.heap.g, j.s.tables, j.kt, |j.s.tables| - i);
    ok, intact := true, true;
  }

  lemma SourceNow(src: PageDirectory, kernel: PageDirectory)
    requires src.Valid() && kernel.Valid()
    ensures IsSource(src, kernel, Snap(src), kernel.tables[..])
  {
    forall c ensures SourceHolds(c, src, kernel, Snap(src), kernel.tables[..]) { }
  }

  // A blank directory at an address, and where its tablesPhysical array is.
  method BlankDirectory(phys: nat) returns (dir: PageDirectory)
    ensures fresh(dir) && fresh(dir.tables) && fresh(dir.physical) && dir.slots == map[]
    ensures dir.Valid() && BlankFrom(Snap(dir), 0) && dir.physicalAddr == phys + 0x1000
  {
    dir := new PageDirectory(0);
    dir.physicalAddr := phys + 0x1000;
  }

  // Memory for the directory, cleared; the source stays what it was.
  method DirectoryMemory(store: Store, ghost src: PageDirectory, ghost s: Snapshot, ghost kt: seq<PageTable?>)
    returns (phys: nat)
    requires store.Valid() && store.Room() > 0x4000 && IsSource(src, store.kernel, s, kt)
    modifies store.placement, store.ram, store.heap`heapEnd, store.heap`heads, store.heap`newest, store.heap`g,
             store.heap.bigs
    ensures store.Valid() && store.Room() >= old(store.Room()) - 0x4000 && 0 < store.low && phys % 0x1000 == 0
    ensures IsSource(src, store.kernel, s, kt)
    ensures Kept(old(store.heap.g), old(store.ram.m), store.heap.g, store.ram.m)
    ensures Above(old(store.ram.m), store.ram.m, store.low * 0x1000)
    ensures WasServed(store.started, old(store.heap.g), store.heap.g, phys, DIRECTORY_SIZE)
    ensures store.started ==> phys in store.heap.g.live && DIRECTORY_SIZE <= Capacity(store.heap.g, phys)
    ensures !store.started ==> phys == NextBoundary(old(store.placement.pointer))
  {
    ghost var g := store.heap.g;
    var start, intact;
    start, phys, intact := store.Cleared(DIRECTORY_SIZE);
    DirectoryOutlived(store.started, g, store.heap.g, start, intact);
  }

  // What was there before the allocation of the directory is what was cloned.
  lemma SlotsRebased(lo: nat, src: Snapshot, kernel: seq<PageTable?>, dst: Snapshot, n: nat,
                     m0: Memory, m: Memory, m': Memory)
    requires Sized(src) && Sized(dst) && |kernel| == 1024 && SlotsCloned(src, kernel, dst, 1024, n, m, m')
    requires OnlyFrames(lo, m0, m, n, n) && SourceOk(src, kernel, lo, n)
    ensures SlotsCloned(src, kernel, dst, 1024, n, m0, m')
  {
    forall t | 0 <= t < 1024 ensures SlotCloned(src, kernel, dst, t, n, m0, m') {
      assert SlotCloned(src, kernel, dst, t, n, m, m');
      if src.tables[t] != null && t in src.view && !Shared(src.tables, kernel, t) {
        CloneRebased(lo, src.view[t], dst.view[t], n + Used(src.view, src.tables, kernel, t), n, m0, m, m');
      }
    }
  }

  // A new directory at phys with all slots filled.
  method FillDirectory(store: Store, frames: FrameMap, src: PageDirectory, phys: nat, ghost j: Job)
    returns (dir: PageDirectory, ok: bool, intact: bool)
    requires Sized(j.s) && |j.kt| == 1024 && store.low <= j.n && SourceOk(j.s, j.kt, store.low, j.n)
    requires store.Valid() && frames.Valid() && frames.HandedOut(j.n) && IsSource(src, store.kernel, j.s, j.kt)
    requires frames.words != src.physical && frames.words != store.kernel.physical
    requires store.Room() >= j.room + TABLE_COST * Left(j.s.tables, j.kt, |j.s.tables|) && j.room > 0
    requires j.g0 == store.heap.g && j.m0 == store.ram.m
    requires CleanIs(j.clean, store.started, store.heap.g, Left(j.s.tables, j.kt, |j.s.tables|))
    modifies store.placement, store.ram, store.heap`heapEnd, store.heap`heads, store.heap`newest, store.heap`g,
             store.heap.bigs, frames.words
    ensures frames.Valid() && dir.Valid() && IsSource(src, store.kernel, j.s, j.kt)
    ensures fresh(dir) && dir.physicalAddr == phys + 0x1000
    ensures (store.Valid() <==> intact) && (intact ==> Kept(j.g0, j.m0, store.heap.g, store.ram.m))
    ensures (ok ==> intact) && (!intact ==> !j.clean) && store.Room() >= j.room
    ensures Cloned(j.s, j.kt, Snap(dir), store.low, j.n, frames.Total(), j.clean, j.m0, store.ram.m, ok)
    ensures ok ==> frames.HandedOut(j.n + Needed(j.s.view, j.s.tables, j.kt))
  {
    dir := BlankDirectory(phys);
    ghost var first := 0;
    RoundFold(store, frames, src, dir, j, first);
    ok, intact := CloneSlots(store, frames, src, dir, j);
  }

  // The same with memory for the directory, of a source that holds s and kt with
  // room for as many tables as are left to copy.
  method CloneSource(store: Store, frames: FrameMap, src: PageDirectory, ghost n: nat, ghost s: Snapshot,
                     ghost kt: seq<PageTable?>, ghost left: nat, ghost g0: State, ghost m0: Memory, ghost room: int)
    returns (dir: PageDirectory, ok: bool, intact: bool)
    requires store.Valid() && store.low <= n && frames.Valid() && frames.HandedOut(n)
    requires frames.words != src.physical && frames.words != store.kernel.physical
    requires IsSource(src, store.kernel, s, kt) && Sized(s) && |kt| == 1024 && left == Left(s.tables, kt, |s.tables|)
    requires store.Room() >= room + TABLE_COST * left + 0x4000 && room > 0
    requires SourceOk(s, kt, store.low, n) && g0 == store.heap.g && m0 == store.ram.m
    modifies store.placement, store.ram, store.heap`heapEnd, store.heap`heads, store.heap`newest, store.heap`g,
             store.heap.bigs, frames.words
    ensures frames.Valid() && dir.Valid() && fresh(dir) && dir.physicalAddr % 0x1000 == 0
    ensures store.started && intact ==> dir.physicalAddr - 0x1000 in store.heap.g.live
    ensures !store.started ==> dir.physicalAddr == NextBoundary(old(store.placement.pointer)) + 0x1000
    ensures (store.Valid() <==> intact) && (intact ==> Kept(g0, m0, store.heap.g, store.ram.m))
    ensures store.Room() >= room && IsSource(src, store.kernel, s, kt)
    ensures Cloned(s, kt, Snap(dir), store.low, n, frames.Total(), CleanCall(store.started, g0, left),
                   m0, store.ram.m, ok)
    ensures (ok ==> intact) && (!intact ==> !CleanCall(store.started, g0, left))
    ensures ok ==> frames.HandedOut(n + Needed(s.view, s.tables, kt))
  {
    var phys := DirectoryMemory(store, src, s, kt);
    ghost var g1, m1 := store.heap.g, store.ram.m;
    ghost var clean := CleanCall(store.started, g0, left);
    CleanBegins(store.started, g0, g1, phys, left);
    dir, ok, intact := FillDirectory(store, frames, src, phys, Job(s, kt, n, g1, m1, room, clean));
    if intact {
      KeptUnfold(g1, m1, store.heap.g, store.ram.m);
      KeptFurther(g0, m0, g1, m1, store.heap.g, store.ram.m);
    }
    ClonedFrom(s, kt, Snap(dir), store.low, n, frames.Total(), clean, m0, m1, store.ram.m, ok);
  }

  // The tables that a clone of src copies.
  ghost function ToCopy(src: PageDirectory, kernel: PageDirectory): nat
    requires src.Valid() && kernel.Valid()
    reads src`slots, src.tables, src.physical, kernel`slots, kernel.tables, kernel.physical
  {
    Left(src.tables[..], kernel.tables[..], |src.tables[..]|)
  }

  // `clone_directory`, in either phase. It succeeds exactly when there are as many
  // free frames as the tables to copy need, and every clear of a table on the way
  // spares the heap. Neither the source nor the kernel directory is written, and
  // unless a clear destroys it the heap keeps every client's block and bytes.
  method CloneDirectory(store: Store, frames: FrameMap, src: PageDirectory, ghost n: nat)
    returns (dir: PageDirectory, ok: bool, intact: bool)
    requires store.Valid() && store.kernel.Valid() && src.Valid() && store.low <= n
    requires frames.Valid() && frames.HandedOut(n)
    requires frames.words != src.physical && frames.words != store.kernel.physical
    requires store.Room() > TABLE_COST * ToCopy(src, store.kernel) + 0x4000
    requires SourceOk(Snap(src), store.kernel.tables[..], store.low, n)
    modifies store.placement, store.ram, store.heap`heapEnd, store.heap`heads, store.heap`newest, store.heap`g,
             store.heap.bigs, frames.words
    ensures frames.Valid() && dir.Valid() && fresh(dir) && dir.physicalAddr % 0x1000 == 0
    ensures store.started && intact ==> dir.physicalAddr - 0x1000 in store.heap.g.live
    ensures !store.started ==> dir.physicalAddr == NextBoundary(old(store.placement.pointer)) + 0x1000
    ensures store.Valid() <==> intact
    ensures intact ==> Kept(old(store.heap.g), old(store.ram.m), store.heap.g, store.ram.m)
    ensures store.Room() >= old(store.Room()) - TABLE_COST * old(ToCopy(src, store.kernel)) - 0x4000
    ensures Sized(old(Snap(src))) && IsSource(src, store.kernel, old(Snap(src)), old(store.kernel.tables[..]))
    ensures var clean := CleanCall(store.started, old(store.heap.g), old(ToCopy(src, store.kernel)));
            && (ok ==> intact) && (!intact ==> !clean)
            && Cloned(old(Snap(src)), old(store.kernel.tables[..]), Snap(dir), store.low, n, frames.Total(), clean,
                      old(store.ram.m), store.ram.m, ok)
    ensures var s, kt := old(Snap(src)), old(store.kernel.tables[..]);
            ok ==> frames.HandedOut(n + Needed(s.view, s.tables, kt))
  {
    ghost var s, kt := Snap(src), store.kernel.tables[..];
    ghost var left := ToCopy(src, store.kernel);
    ghost var room := store.Room() - TABLE_COST * left - 0x4000;
    SourceNow(src, store.kernel);
    dir, ok, intact := CloneSource(store, frames, src, n, s, kt, left, store.heap.g, store.ram.m, room);
  }

  lemma ClonedFrom(s: Snapshot, kt: seq<PageTable?>, d: Snapshot, lo: nat, n: nat, total: nat, clean: bool,
                   m0: Memory, m1: Memory, m: Memory, ok: bool)
    requires Sized(s) && Sized(d) && |kt| == 1024 && 0 < lo <= n && SourceOk(s, kt, lo, n)
    requires Above(m0, m1, lo * 0x1000) && Cloned(s, kt, d, lo, n, total, clean, m1, m, ok)
    ensures Cloned(s, kt, d, lo, n, total, clean, m0, m, ok)
  {
    OnlyFramesFurther(lo, m0, m1, m, n, n, n + Needed(s.view, s.tables, kt));
    if ok { SlotsRebased(lo, s, kt, d, n, m0, m1, m); }
  }

  // ----- What cloning preserves -----

  // The word that offset w of page k reads, through the tables v.
  ghost function LoadThrough(v: Tables, m: Memory, k: nat, w: int): int
    requires TablesOk(v) && Has(v, k)
  {
    FrameWord(m, Entry(v, k).frame, w)
  }

  lemma ClonedFrame(src: seq<Page>, i: nat, base: nat)
    requires i < |src| && src[i].frame != 0
    ensures base <= ClonedEntry(src, i, base).frame < base + FramesIn(src)
  {
    RankGrows(src, 0, i);
    RankGrows(src, i + 1, |src|);
  }

  // Every page with a frame reads the same in the clone as in the source, with at
  // least the source's flags, and as it did before if its frame is above the heap;
  // shared tables keep the very same entries, and pages without a frame have none
  // in the clone.
  lemma ClonePreservesMeaning(src: Snapshot, kernel: seq<PageTable?>, dst: Snapshot, lo: nat, n: nat,
                              m0: Memory, m: Memory, k: nat, w: int)
    requires Sized(src) && Sized(dst) && |kernel| == 1024 && SlotsCloned(src, kernel, dst, 1024, n, m0, m)
    requires TablesOk(src.view) && TablesOk(dst.view) && SourceOk(src, kernel, lo, n)
    requires forall t :: 0 <= t < 1024 ==> (t in src.view <==> src.tables[t] != null)
    requires OnlyFrames(lo, m0, m, n, n + Needed(src.view, src.tables, kernel))
    requires k < 0x100000 && Has(src.view, k) && 0 <= w < 0x400
    ensures Has(dst.view, k)
    ensures Entry(src.view, k).frame != 0 ==> LoadThrough(dst.view, m, k, w) == LoadThrough(src.view, m, k, w)
    ensures Entry(src.view, k).frame != 0 && lo <= Entry(src.view, k).frame ==>
              LoadThrough(src.view, m, k, w) == LoadThrough(src.view, m0, k, w)
    ensures Entry(src.view, k).frame == 0 <==> Entry(dst.view, k).frame == 0
    ensures src.tables[k / 1024] == kernel[k / 1024] ==> Entry(dst.view, k) == Entry(src.view, k)
    ensures var p, q := Entry(src.view, k), Entry(dst.view, k);
            p.frame != 0 ==> (p.present ==> q.present) && (p.rw ==> q.rw) && (p.user ==> q.user)
                             && (p.accessed ==> q.accessed) && (p.dirty ==> q.dirty)
  {
    var t, i := k / 1024, k % 1024;
    var f := Entry(src.view, k).frame;
    assert SlotCloned(src, kernel, dst, t, n, m0, m);
    assert FramesWithin(src.view[t], 0, n);
    if f != 0 && lo <= f {
      SourceFrameKept(lo, m0, m, f, n, n + Needed(src.view, src.tables, kernel), w);
    }
    if !Shared(src.tables, kernel, t) {
      assert FramesWithin(src.view[t], lo, n);
      var base := n + Used(src.view, src.tables, kernel, t);
      assert CopyOf(src.view[t], i, base, m0, m);
      if f != 0 {
        ClonedFrame(src.view[t], i, base);
        assert FrameWord(m, base + Rank(src.view[t], i), w) == FrameWord(m0, f, w);
      }
    }
  }

  lemma SourceFrameKept(lo: nat, m0: Memory, m: Memory, f: nat, n: nat, end: nat, w: int)
    requires lo <= f < n && OnlyFrames(lo, m0, m, n, end) && 0 <= w < 0x400
    ensures FrameWord(m, f, w) == FrameWord(m0, f, w)
  {
  }

  // A copied page's frame is one the source does not use, and no other copied
  // page's: whatever is later written through either side is not seen through
  // the other, nor through the clone's other copies.
  lemma CopiesAreIsolated(src: Snapshot, kernel: seq<PageTable?>, dst: Snapshot, lo: nat, n: nat,
                          m0: Memory, m: Memory,
                          k: nat, j: nat)
    requires Sized(src) && Sized(dst) && |kernel| == 1024 && SlotsCloned(src, kernel, dst, 1024, n, m0, m)
    requires TablesOk(src.view) && TablesOk(dst.view) && SourceOk(src, kernel, lo, n)
    requires forall t :: 0 <= t < 1024 ==> (t in src.view <==> src.tables[t] != null)
    requires k < 0x100000 && Has(src.view, k) && Has(dst.view, k) && src.tables[k / 1024] != kernel[k / 1024]
    requires Entry(src.view, k).frame != 0
    requires j < 0x100000 && Has(src.view, j) && Has(dst.view, j)
    ensures Entry(dst.view, k).frame != Entry(src.view, j).frame
    ensures j != k ==> Entry(dst.view, k).frame != Entry(dst.view, j).frame
  {
    var t, u := k / 1024, j / 1024;
    assert SlotCloned(src, kernel, dst, t, n, m0, m) && SlotCloned(src, kernel, dst, u, n, m0, m);
    assert FramesWithin(src.view[u], 0, n) && FramesWithin(src.view[t], 0, n);
    var base := n + Used(src.view, src.tables, kernel, t);
    ClonedFrame(src.view[t], k % 1024, base);
    if !Shared(src.tables, kernel, u) && Entry(src.view, j).frame != 0 && j != k {
      CopiesApart(src, kernel, k, j, n);
    }
  }

  // Word w of page k stored through the tables v.
  ghost function StoreThrough(v: Tables, m: Memory, k: nat, w: int, x: Word): Memory
    requires TablesOk(v) && Has(v, k)
  {
    m[Entry(v, k).frame * 0x1000 + 4 * w := x]
  }

  lemma OtherFrame(m: Memory, f: int, w: int, x: Word, h: int, u: int)
    requires f != h && 0 <= w < 0x400 && 0 <= u < 0x400
    ensures FrameWord(m[f * 0x1000 + 4 * w := x], h, u) == FrameWord(m, h, u)
  {
  }

  // So what is stored later through a copied page is seen neither through the
  // source nor through the clone's other pages, and what is stored through the
  // source is not seen through the copy.
  lemma WritesStayApart(src: Snapshot, kernel: seq<PageTable?>, dst: Snapshot, lo: nat, n: nat,
                          m0: Memory, m: Memory,
                        k: nat, j: nat, now: Memory, w: int, u: int, x: Word)
    requires Sized(src) && Sized(dst) && |kernel| == 1024 && SlotsCloned(src, kernel, dst, 1024, n, m0, m)
    requires TablesOk(src.view) && TablesOk(dst.view) && SourceOk(src, kernel, lo, n)
    requires forall t :: 0 <= t < 1024 ==> (t in src.view <==> src.tables[t] != null)
    requires k < 0x100000 && Has(src.view, k) && Has(dst.view, k) && src.tables[k / 1024] != kernel[k / 1024]
    requires Entry(src.view, k).frame != 0
    requires j < 0x100000 && Has(src.view, j) && Has(dst.view, j) && 0 <= w < 0x400 && 0 <= u < 0x400
    ensures LoadThrough(src.view, StoreThrough(dst.view, now, k, w, x), j, u) == LoadThrough(src.view, now, j, u)
    ensures LoadThrough(dst.view, StoreThrough(src.view, now, j, w, x), k, u) == LoadThrough(dst.view, now, k, u)
    ensures j != k ==>
              LoadThrough(dst.view, StoreThrough(dst.view, now, k, w, x), j, u) == LoadThrough(dst.view, now, j, u)
  {
    CopiesAreIsolated(src, kernel, dst, lo, n, m0, m, k, j);
    OtherFrame(now, Entry(dst.view, k).frame, w, x, Entry(src.view, j).frame, u);
    OtherFrame(now, Entry(src.view, j).frame, w, x, Entry(dst.view, k).frame, u);
    if j != k { OtherFrame(now, Entry(dst.view, k).frame, w, x, Entry(dst.view, j).frame, u); }
  }

  lemma CopiesApart(src: Snapshot, kernel: seq<PageTable?>, k: nat, j: nat, n: nat)
    requires Sized(src) && |kernel| == 1024 && TablesOk(src.view) && k != j
    requires k < 0x100000 && Has(src.view, k) && src.tables[k / 1024] != kernel[k / 1024]
    requires Entry(src.view, k).frame != 0
    requires j < 0x100000 && Has(src.view, j) && src.tables[j / 1024] != kernel[j / 1024]
    requires Entry(src.view, j).frame != 0
    ensures Used(src.view, src.tables, kernel, k / 1024) + Rank(src.view[k / 1024], k % 1024) !=
            Used(src.view, src.tables, kernel, j / 1024) + Rank(src.view[j / 1024], j % 1024)
  {
    var t, u := k / 1024, j / 1024;
    if t < u {
      RankGrows(src.view[t], k % 1024 + 1, |src.view[t]|);
      UsedGrows(src.view, src.tables, kernel, t + 1, u);
    } else if u < t {
      RankGrows(src.view[u], j % 1024 + 1, |src.view[u]|);
      UsedGrows(src.view, src.tables, kernel, u + 1, t);
    } else if k % 1024 < j % 1024 {
      RankGrows(src.view[t], k % 1024 + 1, j % 1024);
    } else {
      SlotOfPage(j, k);
      RankGrows(src.view[t], j % 1024 + 1, k % 1024);
    }
  }

  // ----- The clone in full -----

  // The pages below k that a clone copies.
  ghost function PagesToCopy(src: Snapshot, kernel: seq<PageTable?>, k: nat): set<int>
    requires Sized(src) && |kernel| == 1024 && TablesOk(src.view) && k <= 0x100000
  {
    set p | 0 <= p < k && p / 1024 in src.view && src.tables[p / 1024] != kernel[p / 1024]
            && src.view[p / 1024][p % 1024].frame != 0
  }

  lemma PagesToCopyStep(src: Snapshot, kernel: seq<PageTable?>, k: nat)
    requires Sized(src) && |kernel| == 1024 && TablesOk(src.view) && k < 0x100000
    ensures |PagesToCopy(src, kernel, k + 1)| ==
            |PagesToCopy(src, kernel, k)|
            + if k / 1024 in src.view && src.tables[k / 1024] != kernel[k / 1024]
                 && src.view[k / 1024][k % 1024].frame != 0 then 1 else 0
  {
    var before, after := PagesToCopy(src, kernel, k), PagesToCopy(src, kernel, k + 1);
    var last := if k in after then {k} else {};
    forall p ensures p in after <==> p in before || p in last { }
    assert after == before + last;
  }

  // Table and rank count exactly those pages.
  lemma {:induction false} PagesCounted(src: Snapshot, kernel: seq<PageTable?>, k: nat)
    requires Sized(src) && |kernel| == 1024 && TablesOk(src.view) && k <= 0x100000
    requires forall t :: 0 <= t < 1024 ==> (t in src.view <==> src.tables[t] != null)
    ensures |PagesToCopy(src, kernel, k)| ==
            Used(src.view, src.tables, kernel, k / 1024)
            + if k % 1024 > 0 && k / 1024 in src.view && src.tables[k / 1024] != kernel[k / 1024]
              then Rank(src.view[k / 1024], k % 1024) else 0
  {
    if k > 0 {
      PagesCounted(src, kernel, k - 1);
      PagesToCopyStep(src, kernel, k - 1);
      if k % 1024 == 0 {
        assert (k - 1) / 1024 == k / 1024 - 1 && (k - 1) % 1024 == 1023;
      } else {
        assert (k - 1) / 1024 == k / 1024 && (k - 1) % 1024 == k % 1024 - 1;
      }
    }
  }

  // A clone needs a frame for each page it copies.
  lemma NeededIs(src: Snapshot, kernel: seq<PageTable?>)
    requires Sized(src) && |kernel| == 1024 && TablesOk(src.view)
    requires forall t :: 0 <= t < 1024 ==> (t in src.view <==> src.tables[t] != null)
    ensures Needed(src.view, src.tables, kernel) == |PagesToCopy(src, kernel, 0x100000)|
  {
    var all := 0x100000;
    PagesCounted(src, kernel, all);
  }

  // Page by page: a missing table stays missing, a kernel table is shared, and in a
  // copied one a page with a frame gets the frame behind those of the pages copied
  // before it, present and for users, with its words, and any other stays blank.
  lemma ClonedInFull(src: Snapshot, kernel: seq<PageTable?>, dst: Snapshot, n: nat, m0: Memory, m: Memory, k: nat)
    requires Sized(src) && Sized(dst) && |kernel| == 1024 && SlotsCloned(src, kernel, dst, 1024, n, m0, m)
    requires TablesOk(src.view) && TablesOk(dst.view) && k < 0x100000
    requires forall t :: 0 <= t < 1024 ==> (t in src.view <==> src.tables[t] != null)
    ensures var t, i := k / 1024, k % 1024;
            if src.tables[t] == null then dst.tables[t] == null && t !in dst.view && dst.physical[t] == 0
            else if src.tables[t] == kernel[t] then
              && dst.tables[t] == src.tables[t] && dst.physical[t] == src.physical[t]
              && t in dst.view && dst.view[t] == src.view[t]
            else
              && dst.tables[t] != null && dst.tables[t] != src.tables[t]
              && dst.physical[t] == Or(dst.tables[t].address, 7) && t in dst.view
              && dst.view[t][i] == (
                   var page := src.view[t][i];
                   if page.frame == 0 then Page(false, false, false, false, false, 0)
                   else Page(true, page.rw, true, page.accessed, page.dirty, n + |PagesToCopy(src, kernel, k)|))
              && (src.view[t][i].frame != 0 ==>
                    forall w :: 0 <= w < 0x400 ==>
                      Rd(m, dst.view[t][i].frame * 0x1000 + 4 * w) == Rd(m0, src.view[t][i].frame * 0x1000 + 4 * w))
  {
    var t, i := k / 1024, k % 1024;
    assert SlotCloned(src, kernel, dst, t, n, m0, m);
    if src.tables[t] != null && src.tables[t] != kernel[t] {
      PagesCounted(src, kernel, k);
      assert dst.view[t][i] == ClonedEntry(src.view[t], i, n + Used(src.view, src.tables, kernel, t));
      assert CopyOf(src.view[t], i, n + Used(src.view, src.tables, kernel, t), m0, m);
      if src.view[t][i].frame != 0 { SameWords(m0, src.view[t][i].frame, m, dst.view[t][i].frame); }
    }
  }

  lemma SameWords(m: Memory, f: int, m': Memory, f': int)
    requires SameFrame(m, f, m', f')
    ensures forall w :: 0 <= w < 0x400 ==> Rd(m', f' * 0x1000 + 4 * w) == Rd(m, f * 0x1000 + 4 * w)
  {
    forall w | 0 <= w < 0x400 ensures Rd(m', f' * 0x1000 + 4 * w) == Rd(m, f * 0x1000 + 4 * w) {
      assert FrameWord(m', f', w) == FrameWord(m, f, w);
    }
  }

  // The tables copied are those there are and the kernel does not have.
  lemma {:induction false} LeftIs(src: seq<PageTable?>, kernel: seq<PageTable?>, last: nat)
    requires last <= |src| == |kernel|
    ensures Left(src, kernel, last) == |set t | |src| - last <= t < |src| && src[t] != null && src[t] != kernel[t]|
  {
    var s := set t | |src| - last <= t < |src| && src[t] != null && src[t] != kernel[t];
    if last > 0 {
      LeftIs(src, kernel, last - 1);
      var k := |src| - last;
      var rest := set t | |src| - (last - 1) <= t < |src| && src[t] != null && src[t] != kernel[t];
      assert s == rest + if src[k] != null && src[k] != kernel[k] then {k} else {};
    } else {
      assert s == {};
    }
  }
}
