// clone_table (task.c) clears a directory's size from the start of a table. What
// that does to the heap the table comes from, and when it does no harm.
module TableClears {
  import opened RamModel
  import opened SizeClasses
  import opened SkipLists
  import opened HeapState
  import opened HeapInvariant
  import opened HeapMemory
  import opened HeapSpec
  import opened HeapTheorems
  import opened KernelHeap

  const TABLE_SIZE: nat := 0x1000
  const DIRECTORY_SIZE: nat := 0x2004

  // ----- The words cleared -----

  lemma ZeroBytes(w: nat)
    requires w < 0x1_0000_0000
    requires ByteOf(w, 0) == 0 && ByteOf(w, 1) == 0 && ByteOf(w, 2) == 0 && ByteOf(w, 3) == 0
    ensures w == 0
  {
    var a, b, c := w / 0x100, w / 0x100 / 0x100, w / 0x100 / 0x100 / 0x100;
    assert ByteOf(w, 1) == ByteOf(a, 0) && ByteOf(w, 2) == ByteOf(a, 1) == ByteOf(b, 0);
    assert ByteOf(w, 3) == ByteOf(a, 2) == ByteOf(b, 1) == ByteOf(c, 0);
  }

  // Every word inside a cleared range is zero.
  lemma ClearedWord(m: Memory, p: int, len: nat, x: int)
    requires x % 4 == 0 && p <= x && x + 4 <= p + len
    ensures Rd(Filled(m, p, 0, len), x) == 0
  {
    var m' := Filled(m, p, 0, len);
    forall i | 0 <= i < 4 ensures ByteOf(Rd(m', x), i) == 0 {
      FilledBytes(m, p, 0, len, x + i);
      assert (x + i) % 4 == i && (x + i) - i == x;
      assert ByteAt(m', x + i) == ByteOf(Rd(m', x), i);
    }
    ZeroBytes(Rd(m', x));
  }

  // Stores of bytes are stores to words at multiples of four.
  lemma {:induction false} FilledAligned(m: Memory, p: int, len: nat, x: int)
    requires x % 4 != 0
    ensures Rd(Filled(m, p, 0, len), x) == Rd(m, x)
  {
    if len > 0 { FilledAligned(m, p, len - 1, x); }
  }

  // ----- The first word of a block -----

  // The list that runs through the first word of block b: the slabs of its bin, or
  // the big blocks in the order they were made.
  ghost function ListOf(g: State, b: int): seq<int>
    requires b in g.kind
  {
    match g.kind[b]
    case Slab(k) => if k < |g.bins| then g.bins[k] else []
    case Big(_) => BigBlocks(g.order, g.kind)
  }

  // Block b is the last on its list, or a slab on none.
  ghost predicate LinksNothing(g: State, b: int) {
    b in g.kind && forall i :: 0 <= i < |ListOf(g, b)| - 1 ==> ListOf(g, b)[i] != b
  }

  lemma {:induction false} ChainLink(m: Memory, first: int, s: seq<int>, i: nat)
    requires Chain(m, first, s) && i < |s|
    ensures s[i] != 0 && Rd(m, s[i]) == NextOf(s, i)
    decreases |s|
  {
    if i > 0 {
      ChainLink(m, Rd(m, first), s[1..], i - 1);
    } else {
      assert Chain(m, Rd(m, first), s[1..]);
    }
  }

  // What a listed block's first word is.
  lemma ListLink(m: Memory, r: Roots, g: State, b: int, i: nat)
    requires Inv(g) && Represents(m, r, g) && b in g.kind && i < |ListOf(g, b)| && ListOf(g, b)[i] == b
    ensures Rd(m, b) == NextOf(ListOf(g, b), i)
    ensures i + 1 < |ListOf(g, b)| ==> Rd(m, b) != 0
  {
    match g.kind[b] {
      case Slab(k) =>
        assert Fits(Lists, m, r, g);
        ChainLink(m, r.heads[k], g.bins[k], i);
        if i + 1 < |g.bins[k]| { ChainLink(m, r.heads[k], g.bins[k], i + 1); }
      case Big(_) =>
        assert Fits(Neighbours, m, r, g);
        var s := BigBlocks(g.order, g.kind);
        assert NextOf(s, i) == Rd(m, s[i]);
        if i + 1 < |s| {
          ListedBig(g, s[i + 1]);
          BlockBounds(g, s[i + 1]);
        }
    }
  }

  lemma UnlistedIsSlab(g: State, b: int)
    requires Inv(g) && b in g.kind && b !in ListOf(g, b)
    ensures g.kind[b].Slab? && b in g.stacks && g.kind[b].bucket < |g.bins| == BIG_BIN && b !in g.bins[g.kind[b].bucket]
  {
    assert Holds(Tiles, g) && Holds(Slabs, g) && Holds(Bins, g);
    BlockBounds(g, b);
    if g.kind[b].Big? {
      BigBlocksListed(g.order, g.kind, b);
    }
  }

  // Words that differ at b only, where m' has 0.
  ghost predicate WordCleared(m: Memory, m': Memory, b: int) {
    Rd(m', b) == 0 && forall x :: x != b ==> Rd(m', x) == Rd(m, x)
  }

  // A slab on no list has a first word nobody reads.
  lemma UnlistedWord(m: Memory, m': Memory, r: Roots, g: State, b: int)
    requires Inv(g) && Represents(m, r, g) && b in g.kind && b !in ListOf(g, b) && WordCleared(m, m', b)
    ensures Represents(m', r, g)
  {
    UnlistedIsSlab(g, b);
    BlockBounds(g, b);
    var q := b + SMALL_HEADER;
    assert BehindHeader(g, b, q) && LocalWrites(m, m', b, q);
    forall c ensures Fits(c, m', r, g) {
      assert Fits(c, m, r, g);
      match c {
        case Headers => SlabWritesKeep(g, b, q, m, m', r, c);
        case BigHeads => SlabWritesKeep(g, b, q, m, m', r, c);
        case Neighbours => SlabWritesKeep(g, b, q, m, m', r, c);
        case Stacks => UnlistedStacks(m, m', r, g, b);
        case Lists => UnlistedLists(m, m', r, g, b);
      }
    }
  }

  lemma UnlistedStacks(m: Memory, m': Memory, r: Roots, g: State, b: int)
    requires Inv(g) && Fits(Stacks, m, r, g) && b in g.kind && WordCleared(m, m', b)
    ensures Fits(Stacks, m', r, g)
  {
    assert Holds(Slabs, g);
    BlockBounds(g, b);
    forall a | a in g.stacks ensures Chain(m', Rd(m', a + 4), g.stacks[a]) {
      BlockBounds(g, a);
      forall x | x in g.stacks[a] ensures Rd(m', x) == Rd(m, x) {
        CellBounds(a, g.kind[a].bucket, x);
        BlocksApart(g, a, b);
      }
      ChainKept(m, m', Rd(m, a + 4), g.stacks[a]);
    }
  }

  lemma UnlistedLists(m: Memory, m': Memory, r: Roots, g: State, b: int)
    requires Inv(g) && Fits(Lists, m, r, g) && b in g.kind && b !in ListOf(g, b) && WordCleared(m, m', b)
    ensures Fits(Lists, m', r, g)
  {
    UnlistedIsSlab(g, b);
    assert Holds(Bins, g);
    forall k | 0 <= k < |g.bins| ensures Chain(m', r.heads[k], g.bins[k]) {
      forall x | x in g.bins[k] ensures x != b { assert g.kind[x] == Slab(k); }
      ChainKept(m, m', r.heads[k], g.bins[k]);
    }
  }

  // Clearing the first word of a block keeps the heap if the block links nothing.
  lemma LinkCleared(m: Memory, m': Memory, r: Roots, g: State, head: int, level: int, b: int)
    requires Inv(g) && Represents(m, r, g) && ListOk(m, head, level, g.free) && 0 < head && head + BIG_HEADER <= g.start
    requires LinksNothing(g, b) && WordCleared(m, m', b)
    ensures Represents(m', r, g) && ListOk(m', head, level, g.free)
  {
    if b in ListOf(g, b) {
      var i :| 0 <= i < |ListOf(g, b)| && ListOf(g, b)[i] == b;
      ListLink(m, r, g, b, i);
      assert SameMeta(g, m, m');
      RepresentationKept(m, m', r, g);
    } else {
      UnlistedWord(m, m', r, g, b);
    }
    BlockBounds(g, b);
    LocalKeepsList(g, m, m', head, level, b, b + HeaderLen(g.kind[b]));
  }

  // ----- The clear -----

  // A table lies at the page boundary that valloc hands out, in block a.
  ghost predicate IsTable(g: State, table: int) {
    && table in g.live && g.live[table] in g.kind && g.kind[g.live[table]].Big?
    && table == g.live[table] + PAGE && TABLE_SIZE <= Capacity(g, table)
  }

  // The clear of a table in block a does no harm: it ends inside the block, or the
  // block is the last, or it reaches just the first word of the next and that links
  // nothing.
  ghost predicate Spared(g: State, a: int)
    requires a in g.kind && g.kind[a].Big?
  {
    var end := a + g.kind[a].pages * 0x1000;
    g.kind[a].pages >= 4 || end == g.top || (g.kind[a].pages == 3 && LinksNothing(g, end))
  }

  function WordAt(p: int, i: nat): int {
    p + 4 * i
  }

  // m' is m with the 0x801 words of a directory's size cleared from p on.
  datatype WipedClause = Zeros | Changes

  ghost predicate WipedHolds(c: WipedClause, m: Memory, m': Memory, p: int) {
    match c
    case Zeros => forall i :: 0 <= i <= 0x800 ==> Rd(m', WordAt(p, i)) == 0
    case Changes => forall x :: Rd(m', x) != Rd(m, x) ==> p <= x <= WordAt(p, 0x800)
  }

  ghost predicate Wiped(m: Memory, m': Memory, p: int) {
    forall c :: WipedHolds(c, m, m', p)
  }

  // That is what memset does.
  lemma WipedByFill(m: Memory, p: int, len: nat)
    requires p % 4 == 0 && len == DIRECTORY_SIZE
    ensures Wiped(m, Filled(m, p, 0, len), p)
  {
    var m' := Filled(m, p, 0, len);
    forall i | 0 <= i <= 0x800 ensures Rd(m', WordAt(p, i)) == 0 {
      ClearedWord(m, p, len, WordAt(p, i));
    }
    forall x | Rd(m', x) != Rd(m, x) ensures p <= x <= WordAt(p, 0x800) {
      if x < p || p + len <= x { FilledWords(m, p, 0, len, x); }
      if x % 4 != 0 { FilledAligned(m, p, len, x); }
    }
    forall c ensures WipedHolds(c, m, m', p) { }
  }

  // The clear changes words of its client, the word at the end of a block of three
  // pages, or words past the heap.
  lemma ClearChanges(m: Memory, m': Memory, g: State, table: int, x: int)
    requires Inv(g) && IsTable(g, table) && Wiped(m, m', table) && Rd(m', x) != Rd(m, x)
    ensures var a := g.live[table]; var end := a + g.kind[a].pages * 0x1000;
            && table <= x < table + DIRECTORY_SIZE && (x < end ==> Owns(g, table, x))
            && (g.kind[a].pages >= 4 ==> x < end) && (g.kind[a].pages == 3 ==> x <= end)
  {
    assert WipedHolds(Changes, m, m', table);
    LiveAligned(g, table);
    BlockBounds(g, g.live[table]);
  }

  // A spared clear keeps the heap and every other client.
  lemma SparedKept(m: Memory, m': Memory, r: Roots, g: State, head: int, level: int, table: int)
    requires Inv(g) && Represents(m, r, g) && ListOk(m, head, level, g.free) && 0 < head && head + BIG_HEADER <= g.start
    requires IsTable(g, table) && Wiped(m, m', table) && Spared(g, g.live[table])
    ensures Represents(m', r, g) && ListOk(m', head, level, g.free)
    ensures ClientsUntouched(g, m, m', table)
  {
    var a := g.live[table];
    var end := a + g.kind[a].pages * 0x1000;
    if g.kind[a].pages >= 4 || end == g.top {
      forall x | Rd(m', x) != Rd(m, x) ensures Owns(g, table, x) || x >= g.top { ClearChanges(m, m', g, table, x); }
      ClientWrites(g, m, m', r, head, level, table);
    } else {
      var m1 := m[end := 0];
      LinkCleared(m, m1, r, g, head, level, end);
      BlockBounds(g, end);
      assert WipedHolds(Zeros, m, m', table) && Rd(m', WordAt(table, 0x800)) == 0;
      forall x | Rd(m', x) != Rd(m1, x) ensures Owns(g, table, x) { ClearChanges(m, m', g, table, x); }
      ClientWrites(g, m1, m', r, head, level, table);
      forall q, x | Owns(g, q, x) && q != table ensures Rd(m', x) == Rd(m, x) { ClientWord(g, q, x); }
    }
  }

  // Any other clear destroys the next block's magic number or its link.
  lemma NotSparedLost(m: Memory, m': Memory, r: Roots, g: State, table: int)
    requires Inv(g) && IsTable(g, table) && Wiped(m, m', table) && !Spared(g, g.live[table])
    ensures !Represents(m', r, g)
  {
    var a := g.live[table];
    var n, end := g.kind[a].pages, a + g.kind[a].pages * 0x1000;
    TableClear(g, table, n);
    BlockBounds(g, a);
    BlockBounds(g, end);
    assert WipedHolds(Zeros, m, m', table) && Rd(m', WordAt(table, if n == 3 then 0x800 else 0x403)) == 0;
    if Represents(m', r, g) {
      if n == 3 { LinkNeeded(m', r, g, end); } else { MagicNeeded(m', r, g, end); }
    }
  }

  lemma MagicNeeded(m: Memory, r: Roots, g: State, b: int)
    requires Represents(m, r, g) && b in g.kind
    ensures Rd(m, b + 12) == BIN_MAGIC
  {
    assert Fits(Headers, m, r, g);
  }

  lemma LinkNeeded(m: Memory, r: Roots, g: State, b: int)
    requires Inv(g) && Represents(m, r, g) && b in g.kind && !LinksNothing(g, b)
    ensures Rd(m, b) != 0
  {
    var i :| 0 <= i < |ListOf(g, b)| - 1 && ListOf(g, b)[i] == b;
    ListLink(m, r, g, b, i);
  }

  // The clear keeps the heap exactly when it is spared.
  lemma ClearIsExact(m: Memory, m': Memory, r: Roots, g: State, head: int, level: int, table: int)
    requires Inv(g) && Represents(m, r, g) && ListOk(m, head, level, g.free) && 0 < head && head + BIG_HEADER <= g.start
    requires IsTable(g, table) && Wiped(m, m', table)
    ensures Represents(m', r, g) <==> Spared(g, g.live[table])
    ensures Spared(g, g.live[table]) ==>
              ListOk(m', head, level, g.free) && ClientsUntouched(g, m, m', table)
  {
    if Spared(g, g.live[table]) {
      SparedKept(m, m', r, g, head, level, table);
    } else {
      NotSparedLost(m, m', r, g, table);
    }
  }

  // ----- Before the call -----

  // What the next table meets: no free block is large enough for it, or the best
  // fit spares its clear.
  ghost predicate ClearsCleanly(g: State) {
    var j := LowerBound(g.free, VallocSize(TABLE_SIZE));
    j < |g.free| ==> var a := g.free[j].addr; a in g.kind && g.kind[a].Big? && Spared(g, a)
  }

  lemma SparedSame(g: State, g': State, a: int)
    requires a in g.kind && g.kind[a].Big?
    requires g'.kind == g.kind && g'.order == g.order && g'.bins == g.bins && g'.top == g.top
    ensures Spared(g', a) <==> Spared(g, a)
  {
    var end := a + g.kind[a].pages * 0x1000;
    if end in g.kind { assert ListOf(g', end) == ListOf(g, end); }
  }

  lemma BigAllocated(g: State, n: nat, j: nat)
    requires Inv(g) && n > 2048 && RoomFor(g, n) && j == LowerBound(g.free, n)
    ensures j == |g.free| ==> g.top + PagesFor(n) * 0x1000 < WORD_LIMIT
    ensures Allocated(g, n).0 == AllocatedBig(g, n).0 && Allocated(g, n).1 == AllocatedBig(g, n).1
  {
    BinIsSmallestFit(n);
  }

  // The block klmalloc finds or makes for a table, before valloc moves its pointer.
  lemma TableBlockOf(g: State, n: nat, j: nat)
    requires Inv(g) && n == VallocSize(TABLE_SIZE) && PagesFor(n) == 3 && j == LowerBound(g.free, n)
    requires j == |g.free| ==> g.top + PagesFor(n) * 0x1000 < WORD_LIMIT
    ensures var (g1, p) := AllocatedBig(g, n);
            && p in g1.live && g1.live[p] in g1.kind && g1.kind[g1.live[p]].Big?
            && (Spared(g1, g1.live[p]) <==> ClearsCleanly(g))
  {
    if j < |g.free| {
      FreeBlock(g, j);
      SparedSame(g, TakeBig(g, j), g.free[j].addr);
    }
  }

  // The table valloc then hands out.
  lemma TablePlaced(g: State)
    requires Inv(g) && RoomFor(g, VallocSize(TABLE_SIZE))
    ensures var (g', table) := Valloced(g, TABLE_SIZE);
            IsTable(g', table) && (Spared(g', g'.live[table]) <==> ClearsCleanly(g))
  {
    FreshTablePages();
    TableOf(g, VallocSize(TABLE_SIZE), LowerBound(g.free, VallocSize(TABLE_SIZE)));
  }

  lemma TableOf(g: State, n: nat, j: nat)
    requires Inv(g) && n == VallocSize(TABLE_SIZE) && PagesFor(n) == 3 && RoomFor(g, n) && j == LowerBound(g.free, n)
    ensures var (g', table) := Valloced(g, TABLE_SIZE);
            IsTable(g', table) && (Spared(g', g'.live[table]) <==> ClearsCleanly(g))
  {
    BigAllocated(g, n, j);
    TableBlockOf(g, n, j);
    VallocedBig(g, TABLE_SIZE);
    VallocIsNew(g, TABLE_SIZE);
    var (g1, p) := Allocated(g, n);
    SparedSame(g1, Realign(g1, p), g1.live[p]);
  }

  // The clear of the next table keeps the heap exactly when it is clean.
  lemma TableClearIsExact(m: Memory, m': Memory, r: Roots, g: State, head: int, level: int)
    requires Inv(g) && RoomFor(g, VallocSize(TABLE_SIZE)) && 0 < head
    requires var (g', table) := Valloced(g, TABLE_SIZE);
             && Wiped(m, m', table) && Represents(m, r, g')
             && ListOk(m, head, level, g'.free) && head + BIG_HEADER <= g'.start
    ensures var (g', table) := Valloced(g, TABLE_SIZE);
            && (Represents(m', r, g') <==> ClearsCleanly(g))
            && (ClearsCleanly(g) ==> ListOk(m', head, level, g'.free) && ClientsUntouched(g', m, m', table))
  {
    TablePlaced(g);
    var (g', table) := Valloced(g, TABLE_SIZE);
    ClearIsExact(m, m', r, g', head, level, table);
  }

  // What memory tells about the block at a before its table is cleared.
  predicate Spares(m: Memory, a: int, top: int) {
    var end := a + Rd(m, a + 8) + BIG_HEADER;
    || end >= a + 0x4000 || end == top
    || (end == a + 0x3000 && (Rd(m, end) == 0 || (Rd(m, end + 8) < BIG_BIN && Rd(m, end + 4) == 0)))
  }

  lemma SparesTells(m: Memory, r: Roots, g: State, table: int)
    requires Inv(g) && Represents(m, r, g) && IsTable(g, table)
    ensures Spares(m, table - PAGE, g.top) <==> Spared(g, g.live[table])
  {
    var a := g.live[table];
    var n, end := g.kind[a].pages, a + g.kind[a].pages * 0x1000;
    assert Rd(m, a + 8) == BigCapacity(n) by { assert Fits(Headers, m, r, g); }
    BlockBounds(g, a);
    if n == 3 && end != g.top {
      TableClear(g, table, n);
      LinkTells(m, r, g, end);
    }
  }

  // A block links nothing exactly when its first word is 0 or it is a slab without
  // a free cell.
  lemma LinkTells(m: Memory, r: Roots, g: State, b: int)
    requires Inv(g) && Represents(m, r, g) && b in g.kind
    ensures LinksNothing(g, b) <==> Rd(m, b) == 0 || (Rd(m, b + 8) < BIG_BIN && Rd(m, b + 4) == 0)
  {
    BlockBounds(g, b);
    assert Rd(m, b + 8) == SizeField(g.kind[b]) by { assert Fits(Headers, m, r, g); }
    SizeFieldTells(g.kind[b]);
    if g.kind[b].Slab? { HeadTells(m, r, g, b); }
    if !LinksNothing(g, b) { LinkNeeded(m, r, g, b); }
    if b in ListOf(g, b) {
      var i :| 0 <= i < |ListOf(g, b)| && ListOf(g, b)[i] == b;
      ListLink(m, r, g, b, i);
    } else {
      UnlistedIsSlab(g, b);
    }
  }

  lemma HeadTells(m: Memory, r: Roots, g: State, b: int)
    requires Inv(g) && Represents(m, r, g) && b in g.kind && g.kind[b].Slab?
    ensures Rd(m, b + 4) == 0 <==> b !in ListOf(g, b)
  {
    assert Holds(Slabs, g) && Holds(Bins, g) && Fits(Stacks, m, r, g);
    BlockBounds(g, b);
    assert Chain(m, Rd(m, b + 4), g.stacks[b]);
    ListedIffRoom(g, b, g.kind[b].bucket);
  }

  // ----- A heap the clear destroys -----

  // A block of two pages at the end of a heap with no free block.
  lemma TwoPages(g: State)
    requires Inv(g) && g.free == [] && g.top + 0x2000 < WORD_LIMIT
    ensures RoomFor(g, 5000) && Allocated(g, 5000) == (GrowBig(g, 2), g.top + BIG_HEADER)
  {
    assert PagesFor(5000) == 2;
    BinIsSmallestFit(5000);
    BigAllocated(g, 5000, LowerBound(g.free, 5000));
  }

  // Two blocks of two pages, the first free again: the next table goes there, and
  // its clear reaches the header of the second.
  lemma ClearDestroysHeap(start: int, height: nat)
    requires 0 < start && start % 0x1000 == 0 && start + 0x4000 < WORD_LIMIT && height <= MAX_LEVEL
    ensures Inv(Empty(start)) && RoomFor(Empty(start), 5000)
    ensures var (g1, p) := Allocated(Empty(start), 5000);
            RoomFor(g1, 5000) &&
            var g2 := Allocated(g1, 5000).0;
            p in g2.live &&
            var g3 := Freed(g2, p, height);
            RoomFor(g3, VallocSize(TABLE_SIZE)) && !ClearsCleanly(g3)
  {
    EmptyInv(start);
    TwoPages(Empty(start));
    var (g1, p) := Allocated(Empty(start), 5000);
    TwoPages(g1);
    SecondFreed(start, Allocated(g1, 5000).0, p, height);
  }

  lemma SecondFreed(start: int, g: State, p: int, height: nat)
    requires Inv(g) && p in g.live && g.live[p] == start && start in g.kind && g.kind[start] == Big(2)
    requires g.free == [] && g.top == start + 0x4000 && height <= MAX_LEVEL
    ensures RoomFor(Freed(g, p, height), VallocSize(TABLE_SIZE)) && !ClearsCleanly(Freed(g, p, height))
  {
    var g', n := Freed(g, p, height), VallocSize(TABLE_SIZE);
    BlockBounds(g, start);
    assert n == 8144 == BigCapacity(2);
    BinIsSmallestFit(n);
    assert g'.free == [FreeNode(start, n, height)];
    assert LowerBound(g'.free, n) == 0;
  }
}
