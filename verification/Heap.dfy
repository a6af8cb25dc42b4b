// The kernel heap (heap.c, with sbrk of paging.c): the allocator's code over
// physical memory, tied to the state it represents.
module KernelHeap {
  import opened Bits
  import opened RamModel
  import opened SizeClasses
  import opened SkipLists
  import opened HeapState
  import opened HeapInvariant
  import opened HeapMemory
  import opened HeapSpec

  // ----- Frames of the skip list and of clients -----

  // The words the skip list reads: its towers, and the size fields of its nodes.
  ghost predicate ListWord(head: int, free: seq<FreeNode>, x: int) {
    InTower(head, free, x) || exists j :: 0 <= j < |free| && x == free[j].addr + 8
  }

  lemma ListKept(m: Memory, m': Memory, head: int, level: int, free: seq<FreeNode>)
    requires ListOk(m, head, level, free)
    requires forall x :: ListWord(head, free, x) ==> Rd(m', x) == Rd(m, x)
    ensures ListOk(m', head, level, free)
  {
    ListUnfold(m, head, level, free);
    forall j | 0 <= j < |free| ensures Rd(m', free[j].addr + 8) == Rd(m, free[j].addr + 8) {
      assert ListWord(head, free, free[j].addr + 8);
    }
    forall p, i | 0 <= p <= |free| && 0 <= i <= MAX_LEVEL
      ensures Rd(m', Slot(NodeAt(head, free, p), i)) == Rd(m, Slot(NodeAt(head, free, p), i))
    {
      assert InTower(head, free, Slot(NodeAt(head, free, p), i));
    }
    ListFold(m', head, level, free);
  }

  // Every such word lies below the heap or in the header of a free big block.
  lemma ListWordPlace(g: State, head: int, x: int) returns (b: int)
    requires Inv(g) && 0 < head && head + BIG_HEADER <= g.start && ListWord(head, g.free, x)
    ensures 0 < x
    ensures x < g.start || (b in g.kind && g.kind[b].Big? && (x == b + 8 || b + FORWARD <= x < b + BIG_HEADER))
  {
    b := 0;
    if InTower(head, g.free, x) {
      var p :| 0 <= p <= |g.free| && NodeAt(head, g.free, p) + FORWARD <= x < NodeAt(head, g.free, p) + BIG_HEADER;
      if p > 0 {
        FreeBlock(g, p - 1);
        b := g.free[p - 1].addr;
        BlockBounds(g, b);
      }
    } else {
      var j :| 0 <= j < |g.free| && x == g.free[j].addr + 8;
      FreeBlock(g, j);
      b := g.free[j].addr;
      BlockBounds(g, b);
    }
  }

  // The next and head words of a block, and a word behind its header, are none
  // of them.
  lemma LocalMissesList(g: State, head: int, a: int, q: int, x: int)
    requires Inv(g) && 0 < head && head + BIG_HEADER <= g.start && BehindHeader(g, a, q)
    requires x == a || x == a + 4 || x == q
    ensures !ListWord(head, g.free, x)
  {
    BlockBounds(g, a);
    if ListWord(head, g.free, x) {
      var b := ListWordPlace(g, head, x);
      if x >= g.start {
        BlockBounds(g, b);
        BlocksApart(g, a, b);
      }
    }
  }

  lemma LocalKeepsList(g: State, m: Memory, m': Memory, head: int, level: int, a: int, q: int)
    requires Inv(g) && head + BIG_HEADER <= g.start && ListOk(m, head, level, g.free)
    requires BehindHeader(g, a, q) && LocalWrites(m, m', a, q)
    ensures ListOk(m', head, level, g.free)
  {
    assert head > 0 by { ListUnfold(m, head, level, g.free); assert NodeAt(head, g.free, 0) > 0; }
    forall x | ListWord(head, g.free, x) ensures Rd(m', x) == Rd(m, x) {
      if x == a || x == a + 4 || x == q { LocalMissesList(g, head, a, q, x); }
    }
    ListKept(m, m', head, level, g.free);
  }

  // Neither are the words past the end of the heap, nor those of clients.
  lemma GrowthKeepsList(g: State, m: Memory, m': Memory, head: int, level: int, newest: int)
    requires Inv(g) && head + BIG_HEADER <= g.start && ListOk(m, head, level, g.free)
    requires forall x :: x < g.top && x != newest ==> Rd(m', x) == Rd(m, x)
    requires newest == 0 || newest in g.kind
    ensures ListOk(m', head, level, g.free)
  {
    assert head > 0 by { ListUnfold(m, head, level, g.free); assert NodeAt(head, g.free, 0) > 0; }
    forall x | ListWord(head, g.free, x) ensures Rd(m', x) == Rd(m, x) {
      if newest in g.kind { BlockBounds(g, newest); }
      var b := ListWordPlace(g, head, x);
      if x < g.start {
        BoundsOfState(g);
      } else {
        BlockBounds(g, b);
        if newest in g.kind { BlocksApart(g, b, newest); }
      }
    }
    ListKept(m, m', head, level, g.free);
  }

  lemma BoundsOfState(g: State)
    requires Inv(g)
    ensures 0 < g.start <= g.top < WORD_LIMIT && g.start % 0x1000 == 0
  {
    assert Holds(Shape, g);
  }

  // Memory from address top on is as before.
  ghost predicate Above(m: Memory, m': Memory, top: int) {
    forall x :: x >= top ==> Rd(m', x) == Rd(m, x)
  }

  // Client words outlive every write the allocator makes: clients other than
  // `but` find their words unchanged.
  ghost predicate ClientsUntouched(g: State, m: Memory, m': Memory, but: int) {
    forall q, x :: Owns(g, q, x) && q != but ==> Rd(m', x) == Rd(m, x)
  }

  lemma LocalMissesClients(g: State, m: Memory, m': Memory, a: int, q: int, but: int)
    requires Inv(g) && a in g.kind && LocalWrites(m, m', a, q)
    requires forall c :: Owns(g, c, q) ==> c == but
    ensures ClientsUntouched(g, m, m', but)
  {
    forall c, x | Owns(g, c, x) && c != but ensures Rd(m', x) == Rd(m, x) {
      ClientWord(g, c, x);
    }
  }

  lemma TowersMissClients(g: State, m: Memory, m': Memory, head: int, free: seq<FreeNode>)
    requires Inv(g) && head + BIG_HEADER <= g.start && OnlyTowers(m, m', head, free)
    requires forall j :: 0 <= j < |free| ==> free[j].addr in g.kind && g.kind[free[j].addr].Big?
    ensures ClientsUntouched(g, m, m', 0)
  {
    forall c, x | Owns(g, c, x) ensures Rd(m', x) == Rd(m, x) {
      ClientWord(g, c, x);
      if InTower(head, free, x) {
        var p :| 0 <= p <= |free| && NodeAt(head, free, p) + FORWARD <= x < NodeAt(head, free, p) + BIG_HEADER;
        if p > 0 { assert free[p - 1].addr in g.kind; }
      }
    }
  }

  lemma GrowthMissesClients(g: State, m: Memory, m': Memory, newest: int)
    requires Inv(g) && (newest == 0 || newest in g.kind)
    requires forall x :: x < g.top && x != newest ==> Rd(m', x) == Rd(m, x)
    ensures ClientsUntouched(g, m, m', 0)
  {
    forall c, x | Owns(g, c, x) ensures Rd(m', x) == Rd(m, x) {
      ClientWord(g, c, x);
    }
  }

  lemma HeaderMissesClients(g: State, m: Memory, m': Memory, a: int)
    requires Inv(g) && a in g.kind && LocalWrites(m, m', a, a)
    ensures ClientsUntouched(g, m, m', 0)
  {
    forall c, x | Owns(g, c, x) ensures Rd(m', x) == Rd(m, x) {
      ClientWord(g, c, x);
    }
  }

  lemma UntouchedTwice(g: State, g': State, m: Memory, m1: Memory, m2: Memory, but: int)
    requires ClientsKeep(g, g')
    requires ClientsUntouched(g, m, m1, but) && ClientsUntouched(g', m1, m2, but)
    ensures ClientsUntouched(g, m, m2, but)
  {
    forall q, x | Owns(g, q, x) && q != but ensures Rd(m2, x) == Rd(m, x) {
      assert Owns(g', q, x);
    }
  }

  lemma UntouchedAfterFree(g: State, p: int, height: nat, m: Memory, m1: Memory, m2: Memory)
    requires Inv(g) && p in g.live && height <= MAX_LEVEL
    requires ClientsUntouched(g, m, m1, p) && ClientsUntouched(Freed(g, p, height), m1, m2, 0)
    ensures ClientsUntouched(g, m, m2, p)
  {
    forall q, x | Owns(g, q, x) && q != p ensures Rd(m2, x) == Rd(m, x) {
      ClientWord(g, q, x);
      assert q != 0 by { LiveInside(g, q); }
      assert Owns(Freed(g, p, height), q, x);
    }
  }

  // No client but its own holder has the first word behind a big header.
  lemma BigOwner(g: State, p: int, c: int)
    requires Inv(g) && p in g.live && g.live[p] in g.kind && g.kind[g.live[p]].Big?
    requires Owns(g, c, g.live[p] + BIG_HEADER)
    ensures c == p
  {
    ClientWord(g, c, g.live[p] + BIG_HEADER);
    BlockBounds(g, g.live[p]);
    BlocksApart(g, g.live[p], g.live[c]);
    assert Holds(Lives, g);
  }

  // A block in a client's hands may join the free list.
  lemma BlockClear(g: State, head: int, p: int)
    requires Inv(g) && 0 < head && head + BIG_HEADER <= g.start
    requires p in g.live && g.live[p] in g.kind && g.kind[g.live[p]].Big?
    ensures Clear(head, g.free, g.live[p])
  {
    var a := g.live[p];
    LiveBig(g, p);
    BlockBounds(g, a);
    forall i | 0 <= i <= |g.free|
      ensures || NodeAt(head, g.free, i) + BIG_HEADER <= a
              || a + BIG_HEADER <= NodeAt(head, g.free, i)
    {
      if i > 0 {
        FreeBlock(g, i - 1);
        BlockBounds(g, g.free[i - 1].addr);
        BlocksApart(g, a, g.free[i - 1].addr);
      }
    }
  }

  // What klfree reads from the header it finds.
  lemma FoundHeader(m: Memory, r: Roots, g: State, p: int)
    requires Inv(g) && Represents(m, r, g) && p in g.live
    ensures g.live[p] in g.kind && 0 < g.live[p] < WORD_LIMIT - PAGE
    ensures Rd(m, g.live[p] + 12) == BIN_MAGIC && Rd(m, g.live[p] + 8) == SizeField(g.kind[g.live[p]])
    ensures Rd(m, g.live[p] + 8) > NUM_BINS <==> g.kind[g.live[p]].Big?
    ensures Rd(m, g.live[p] + 8) < BIG_BIN <==> g.kind[g.live[p]].Slab?
    ensures var x := if p % 0x1000 == 0 then p - 1 else p; 0 <= x && And(x, 0xFFFFF000) == g.live[p]
  {
    LiveInside(g, p);
    BlockBounds(g, g.live[p]);
    assert Fits(Headers, m, r, g);
    SizeFieldTells(g.kind[g.live[p]]);
    HeaderRecovered(g, p);
    PageMask(if p % 0x1000 == 0 then p - 1 else p);
  }

  lemma CellOwner(g: State, p: int, c: int)
    requires Inv(g) && p in g.live && g.live[p] in g.kind && g.kind[g.live[p]].Slab? && Owns(g, c, p)
    ensures c == p
  {
    if c != p { LiveApart(g, p, c); }
  }

  // After pushing the space of a big block and listing it again.
  lemma GivenBlock(g: State, m0: Memory, m1: Memory, m2: Memory, r: Roots, head: int, p: int, height: nat)
    requires Inv(g) && Represents(m0, r, g) && head + BIG_HEADER <= g.start && height <= MAX_LEVEL
    requires p in g.live && g.live[p] in g.kind && g.kind[g.live[p]].Big?
    requires 0 <= g.live[p] < WORD_LIMIT - PAGE
    requires m1 == m0[g.live[p] + BIG_HEADER := Rd(m0, g.live[p] + 4)][g.live[p] + 4 := g.live[p] + BIG_HEADER]
    requires OnlyTowers(m1, m2, head, GiveBig(g, p, height).free)
    ensures Represents(m2, r, Freed(g, p, height)) && ClientsUntouched(g, m0, m2, p)
  {
    var g' := Freed(g, p, height);
    GiveBigRepresented(m0, r, g, p, height);
    GiveBigInv(g, p, height);
    ListWritesKeep(g', m1, m2, r, head);
    var q := g.live[p] + BIG_HEADER;
    forall c | Owns(g, c, q) ensures c == p { BigOwner(g, p, c); }
    LocalMissesClients(g, m0, m1, g.live[p], q, p);
    UntouchedAfterFree(g, p, height, m0, m1, m2);
  }

  // No word of a client's is one the allocator reads: header words, links of free
  // cells, or words of the skip list. Neither is one past the end of the heap.
  lemma ClientMissesReads(g: State, head: int, p: int, x: int)
    requires Inv(g) && 0 < head && head + BIG_HEADER <= g.start && (Owns(g, p, x) || x >= g.top)
    ensures !Meta(g, x) && !ListWord(head, g.free, x)
  {
    BoundsOfState(g);
    if Meta(g, x) {
      var a := MetaInBlock(g, x);
      BlockBounds(g, a);
      ClientMissesMeta(g, p, x);
    }
    if ListWord(head, g.free, x) {
      var b := ListWordPlace(g, head, x);
      if x >= g.start { BlockBounds(g, b); }
      ClientWord(g, p, x);
    }
  }

  // Whatever a client writes to its own words, or to words past the end of the
  // heap, the allocator does not notice.
  lemma ClientWrites(g: State, m: Memory, m': Memory, r: Roots, head: int, level: int, p: int)
    requires Inv(g) && Represents(m, r, g) && ListOk(m, head, level, g.free)
    requires 0 < head && head + BIG_HEADER <= g.start
    requires forall x :: Rd(m', x) != Rd(m, x) ==> Owns(g, p, x) || x >= g.top
    ensures Represents(m', r, g) && ListOk(m', head, level, g.free) && ClientsUntouched(g, m, m', p)
  {
    forall x | Meta(g, x) || ListWord(head, g.free, x) ensures Rd(m', x) == Rd(m, x) {
      if Owns(g, p, x) || x >= g.top { ClientMissesReads(g, head, p, x); }
    }
    RepresentationKept(m, m', r, g);
    ListKept(m, m', head, level, g.free);
    forall q, x | Owns(g, q, x) && q != p ensures Rd(m', x) == Rd(m, x) {
      ClientWord(g, q, x);
      if Owns(g, p, x) { LiveApart(g, p, q); }
    }
  }

  // Unchanged words are unchanged bytes.
  lemma BytesUntouched(g: State, m: Memory, m': Memory, but: int, q: int)
    requires Inv(g) && ClientsUntouched(g, m, m', but) && q in g.live && q != but
    ensures forall y :: q <= y < q + Capacity(g, q) ==> ByteAt(m', y) == ByteAt(m, y)
  {
    LiveAligned(g, q);
    forall y | q <= y < q + Capacity(g, q) ensures ByteAt(m', y) == ByteAt(m, y) {
      WordStart(q, y - q);
      assert Owns(g, q, y - y % 4);
    }
  }

  // Words written through a new pointer were no old client's.
  lemma UntouchedByNewcomer(g: State, g': State, m: Memory, m1: Memory, m2: Memory, p: int)
    requires ClientsKeep(g, g') && p !in g.live
    requires ClientsUntouched(g, m, m1, 0) && ClientsUntouched(g', m1, m2, p)
    ensures ClientsUntouched(g, m, m2, 0)
  {
    forall q, x | Owns(g, q, x) && q != 0 ensures Rd(m2, x) == Rd(m, x) {
      assert Owns(g', q, x);
    }
  }

  lemma FilledInside(g: State, m: Memory, p: int, len: nat)
    requires Inv(g) && p in g.live && len <= Capacity(g, p)
    ensures forall x :: Rd(Filled(m, p, 0, len), x) != Rd(m, x) ==> Owns(g, p, x)
    ensures forall y :: p <= y < p + len ==> ByteAt(Filled(m, p, 0, len), y) == 0
  {
    LiveAligned(g, p);
    forall x | Rd(Filled(m, p, 0, len), x) != Rd(m, x) ensures Owns(g, p, x) {
      if x < p || p + len <= x { FilledWords(m, p, 0, len, x); }
    }
    forall y | p <= y < p + len ensures ByteAt(Filled(m, p, 0, len), y) == 0 {
      FilledBytes(m, p, 0, len, y);
    }
  }

  lemma CopiedInside(g: State, m: Memory, p: int, src: int, len: nat)
    requires Inv(g) && p in g.live && src in g.live && p != src
    requires len <= Capacity(g, p) && len <= Capacity(g, src)
    ensures forall x :: Rd(Copied(m, p, src, len), x) != Rd(m, x) ==> Owns(g, p, x)
    ensures SameContents(m, src, Copied(m, p, src, len), p, len)
  {
    LiveAligned(g, p);
    LiveApart(g, p, src);
    forall x | Rd(Copied(m, p, src, len), x) != Rd(m, x) ensures Owns(g, p, x) {
      if x < p || p + len <= x { CopiedWords(m, p, src, len, x); }
    }
    forall y | p <= y < p + len ensures ByteAt(Copied(m, p, src, len), y) == ByteAt(m, y - p + src) {
      CopiedBytes(m, p, src, len, y);
    }
  }

  // The len bytes at dst in m' are those at src in m.
  ghost predicate SameContents(m: Memory, src: int, m': Memory, dst: int, len: int) {
    forall y :: dst <= y < dst + len ==> ByteAt(m', y) == ByteAt(m, y - dst + src)
  }

  lemma MovedBytes(g0: State, g1: State, m0: Memory, m1: Memory, m2: Memory, m3: Memory, src: int, dst: int, len: nat)
    requires Inv(g0) && Inv(g1) && src in g0.live && dst in g1.live && src != dst && dst != 0 && src != 0
    requires len <= Capacity(g0, src) && len <= Capacity(g1, dst)
    requires ClientsUntouched(g0, m0, m1, 0) && ClientsUntouched(g1, m2, m3, src)
    requires SameContents(m1, src, m2, dst, len)
    ensures SameContents(m0, src, m3, dst, len)
  {
    BytesUntouched(g0, m0, m1, 0, src);
    BytesUntouched(g1, m2, m3, src, dst);
    forall y | dst <= y < dst + len ensures ByteAt(m3, y) == ByteAt(m0, y - dst + src) {
      assert ByteAt(m2, y) == ByteAt(m1, y - dst + src);
      assert src <= y - dst + src < src + len;
    }
  }

  lemma MovedClients(g0: State, g1: State, m0: Memory, m2: Memory, m3: Memory, src: int)
    requires Inv(g0) && ClientsKeep(g0, g1)
    requires ClientsUntouched(g0, m0, m2, 0) && ClientsUntouched(g1, m2, m3, src)
    ensures ClientsUntouched(g0, m0, m3, src)
  {
    forall q, x | Owns(g0, q, x) && q != src ensures Rd(m3, x) == Rd(m0, x) {
      LiveInside(g0, q);
      assert Owns(g1, q, x);
    }
  }

  // The capacity klrealloc computes from the header.
  lemma LiveCapacity(g: State, p: int)
    requires Inv(g) && p in g.live && p % 0x1000 != 0
    ensures g.live[p] in g.kind
    ensures Capacity(g, p) == match g.kind[g.live[p]] case Slab(k) => Pow2(2 + k) case Big(n) => BigCapacity(n)
  {
    HeaderRecovered(g, p);
    LiveInside(g, p);
    if g.kind[g.live[p]].Big? { LiveBig(g, p); }
  }

  lemma GrownClientsKeep(g: State, k: nat)
    requires Inv(g) && k < |g.bins|
    ensures ClientsKeep(g, GrowSlab(g, k))
  {
    NotPastTop(g);
    forall q | q in g.live ensures g.live[q] in g.kind { LiveInside(g, q); }
  }

  // Relinking the skip list disturbs neither the representation nor clients.
  lemma TowersBelowTop(g: State, m: Memory, m': Memory, head: int)
    requires Inv(g) && head + BIG_HEADER <= g.start && OnlyTowers(m, m', head, g.free)
    ensures Above(m, m', g.top)
  {
    BoundsOfState(g);
    forall x | x >= g.top ensures Rd(m', x) == Rd(m, x) {
      if InTower(head, g.free, x) {
        var p :| 0 <= p <= |g.free| && NodeAt(head, g.free, p) + FORWARD <= x < NodeAt(head, g.free, p) + BIG_HEADER;
        if p > 0 {
          FreeBlock(g, p - 1);
          BlockBounds(g, g.free[p - 1].addr);
        }
      }
    }
  }

  lemma ListWritesKeep(g: State, m: Memory, m': Memory, r: Roots, head: int)
    requires Inv(g) && Represents(m, r, g) && head + BIG_HEADER <= g.start && OnlyTowers(m, m', head, g.free)
    ensures Represents(m', r, g) && ClientsUntouched(g, m, m', 0) && Above(m, m', g.top)
  {
    forall j | 0 <= j < |g.free| ensures g.free[j].addr in g.kind && g.kind[g.free[j].addr].Big? {
      FreeBlock(g, j);
    }
    TowersBelowTop(g, m, m', head);
    TowersKeep(g, head, g.free, m, m');
    RepresentationKept(m, m', r, g);
    TowersMissClients(g, m, m', head, g.free);
  }

  // Popping the block unlinked just before.
  lemma TakenBlock(g: State, m: Memory, r: Roots, head: int, level: int, j: nat)
    requires Inv(g) && Represents(m, r, g) && j < |g.free|
    requires 0 < head && head + BIG_HEADER <= g.start && ListOk(m, head, level, Removed(g.free, j))
    ensures var a := g.free[j].addr;
            var m' := m[a + 4 := Rd(m, Rd(m, a + 4))];
            && Rd(m, a + 4) == a + BIG_HEADER
            && Represents(m', r, TakeBig(g, j)) && ListOk(m', head, level, Removed(g.free, j))
            && ClientsUntouched(g, m, m', 0) && Above(m, m', g.top)
  {
    var a := g.free[j].addr;
    FreeBlock(g, j);
    BlockBounds(g, a);
    TakeBigRepresented(m, r, g, j);
    TakeBigInv(g, j);
    var m' := m[a + 4 := Rd(m, Rd(m, a + 4))];
    LocalKeepsList(TakeBig(g, j), m, m', head, level, a, a + BIG_HEADER);
    HeaderMissesClients(g, m, m', a);
  }

  // The stores into a new big block's header: its own fields, then its links.
  lemma FieldsStored(m: Memory, a: int, size: Word, prev: Word)
    ensures var m' := m[a + 12 := BIN_MAGIC][a + 8 := size][a + 16 := prev];
            && Rd(m', a + 8) == size && Rd(m', a + 12) == BIN_MAGIC && Rd(m', a + 16) == prev
            && (forall x :: x < a ==> Rd(m', x) == Rd(m, x)) && Above(m, m', a + BIG_HEADER)
  {
  }

  lemma LinksStored(m: Memory, prev: int, a: Word)
    requires 0 <= prev < a
    ensures var m' := (if prev != 0 then m[prev := a] else m)[a := 0][a + 4 := 0];
            && (prev != 0 ==> Rd(m', prev) == a) && Rd(m', a) == 0 && Rd(m', a + 4) == 0
            && (forall x :: x > a + 4 || (x < a && x != prev) ==> Rd(m', x) == Rd(m, x))
  {
  }

  // ----- Threading a fresh slab -----

  // The first n cells of a slab at a point each to the next.
  ghost predicate Threaded(m: Memory, a: int, k: nat, n: int) {
    forall i :: 0 <= i < n ==> Rd(m, CellAddr(a, k, i)) == CellAddr(a, k, i + 1)
  }

  lemma {:induction false} ThreadedChain(m: Memory, a: int, k: nat, j: nat)
    requires a > 0 && j < CellCount(k)
    requires Threaded(m, a, k, CellCount(k) - 1) && Rd(m, CellAddr(a, k, CellCount(k) - 1)) == 0
    ensures Chain(m, CellAddr(a, k, j), CellsFrom(a, k, j))
    decreases CellCount(k) - j
  {
    ProductAtLeastZero(j, CellSize(k));
    assert CellsFrom(a, k, j)[1..] == CellsFrom(a, k, j + 1);
    if j + 1 < CellCount(k) {
      ThreadedChain(m, a, k, j + 1);
    }
  }

  lemma ProductAtLeastZero(j: nat, s: nat)
    ensures j * s >= 0
  {
  }

  lemma ThreadStep(m: Memory, a: int, k: nat, i: nat, v: Word)
    requires Threaded(m, a, k, i) && v == CellAddr(a, k, i + 1)
    ensures Threaded(m[CellAddr(a, k, i) := v], a, k, i + 1)
  {
    forall j | 0 <= j < i ensures CellAddr(a, k, j) != CellAddr(a, k, i) {
      Products(j, i, CellSize(k));
    }
  }

  lemma ThreadEnd(m: Memory, a: int, k: nat, n: nat)
    requires Threaded(m, a, k, n)
    ensures Threaded(m[CellAddr(a, k, n) := 0], a, k, n)
  {
    forall j | 0 <= j < n ensures CellAddr(a, k, j) != CellAddr(a, k, n) {
      Products(j, n, CellSize(k));
    }
  }

  // The header's size word, written after threading, is not a cell.
  lemma HeaderStoreKeeps(m: Memory, a: int, k: nat, v: Word)
    requires k < BIG_BIN && Threaded(m, a, k, CellCount(k) - 1) && Rd(m, CellAddr(a, k, CellCount(k) - 1)) == 0
    ensures Threaded(m[a + 8 := v], a, k, CellCount(k) - 1)
    ensures Rd(m[a + 8 := v], CellAddr(a, k, CellCount(k) - 1)) == 0
  {
    CellCountBounds(k);
    forall j | 0 <= j < CellCount(k) ensures CellAddr(a, k, j) != a + 8 { CellInPage(a, k, j); }
  }

  lemma BelowFilled(m: Memory, dest: int, len: nat)
    requires dest % 0x1000 == 0
    ensures forall x :: x < dest ==> Rd(Filled(m, dest, 0, len), x) == Rd(m, x)
    ensures Above(m, Filled(m, dest, 0, len), dest + len)
  {
    PageIsWord(dest, 0);
    forall x | x < dest || dest + len <= x ensures Rd(Filled(m, dest, 0, len), x) == Rd(m, x) {
      FilledWords(m, dest, 0, len, x);
    }
  }

  // List heads are block addresses or NULL.
  lemma FirstInRange(m: Memory, r: Roots, g: State, k: nat)
    requires Inv(g) && Represents(m, r, g) && k < |r.heads| == |g.bins|
    ensures 0 <= r.heads[k] < WORD_LIMIT
    ensures r.heads[k] == 0 <==> g.bins[k] == []
    ensures g.bins[k] != [] ==> r.heads[k] == g.bins[k][0]
  {
    assert Fits(Lists, m, r, g);
    assert Chain(m, r.heads[k], g.bins[k]);
    if g.bins[k] != [] {
      BinCount(g);
      FirstCell(g, k);
      BlockBounds(g, g.bins[k][0]);
    }
  }

  lemma EmptyOk(m: Memory, start: int)
    requires 0 < start < WORD_LIMIT && start % 0x1000 == 0
    ensures Inv(Empty(start)) && Represents(m, Roots(seq(BIG_BIN, _ => 0), 0), Empty(start))
  {
    var e, r := Empty(start), Roots(seq(BIG_BIN, _ => 0), 0);
    forall c ensures Holds(c, e) { }
    forall c ensures Fits(c, m, r, e) { }
  }

  lemma CellInPage(a: int, k: nat, i: nat)
    requires k < BIG_BIN && i < CellCount(k)
    ensures a + SMALL_HEADER <= CellAddr(a, k, i) && CellAddr(a, k, i) + 4 <= a + PAGE
  {
    assert IsCell(a, k, CellAddr(a, k, i));
    CellBounds(a, k, CellAddr(a, k, i));
  }

  // ----- Reading a header as klrealloc does -----

  // The page of ptr begins with what looks like a header.
  predicate Recognised(m: Memory, ptr: int) {
    Rd(m, ptr - ptr % 0x1000 + 12) == BIN_MAGIC
  }

  function SizeRead(m: Memory, ptr: int): nat {
    var field := Rd(m, ptr - ptr % 0x1000 + 8);
    if field < BIG_BIN then Pow2(2 + field) else field
  }

  predicate Moves(m: Memory, ptr: int, size: nat) {
    size > 0 && Recognised(m, ptr) && SizeRead(m, ptr) < size
  }

  // Both blocks hold the bytes a move copies.
  ghost predicate MoveFits(g: State, m: Memory, ptr: int, size: nat)
    requires Inv(g) && RoomFor(g, size)
  {
    var (g1, p1) := Allocated(g, size);
    SizeRead(m, ptr) <= Capacity(g, ptr) && SizeRead(m, ptr) <= Capacity(g1, p1)
  }

  // For a pointer that is not page-aligned the header is its block's own.
  lemma SizeReadIs(m: Memory, r: Roots, g: State, ptr: int)
    requires Inv(g) && Represents(m, r, g) && ptr in g.live && ptr % 0x1000 != 0
    ensures Recognised(m, ptr) && SizeRead(m, ptr) == Capacity(g, ptr)
  {
    FoundHeader(m, r, g, ptr);
    HeaderRecovered(g, ptr);
    LiveCapacity(g, ptr);
  }

  // For a page-aligned pointer what is taken for the header are words behind the
  // pointer: the client's own, unless its block ends there.
  lemma PageAlignedReadsClient(m: Memory, g: State, ptr: int)
    requires Inv(g) && ptr in g.live && ptr % 0x1000 == 0
    ensures Recognised(m, ptr) <==> Rd(m, ptr + 12) == BIN_MAGIC
    ensures SizeRead(m, ptr) == if Rd(m, ptr + 8) < BIG_BIN then Pow2(2 + Rd(m, ptr + 8)) else Rd(m, ptr + 8)
    ensures g.live[ptr] in g.kind
    ensures if ptr == g.live[ptr] + Len(g.kind[g.live[ptr]]) then Capacity(g, ptr) == 0
            else forall x :: ptr <= x < ptr + 16 ==> Owns(g, ptr, x)
  {
    HeaderRecovered(g, ptr);
    BlockBounds(g, g.live[ptr]);
  }

  // Moves of others fit exactly when the request does not wrap, or wraps to one page
  // and the old block is no larger than that.
  lemma MoveFitsUnlessWrapped(m: Memory, r: Roots, g: State, ptr: int, size: nat)
    requires Inv(g) && Represents(m, r, g) && ptr in g.live && ptr % 0x1000 != 0
    requires RoomFor(g, size) && Capacity(g, ptr) < size < WORD_LIMIT
    ensures MoveFits(g, m, ptr, size) <==> size + BIG_HEADER < WORD_LIMIT || Capacity(g, ptr) <= BigCapacity(1)
  {
    SizeReadIs(m, r, g, ptr);
    LiveAligned(g, ptr);
    LiveInside(g, ptr);
    BlockBounds(g, g.live[ptr]);
    AllocationIsNew(g, size);
    if size + BIG_HEADER >= WORD_LIMIT { WrappedAllocation(g, size); }
  }

  lemma NoFreeBlockFits(g: State, size: nat)
    requires Inv(g) && size < WORD_LIMIT <= size + BIG_HEADER
    ensures LowerBound(g.free, size) == |g.free|
  {
    var j := LowerBound(g.free, size);
    if j < |g.free| {
      FreeBlock(g, j);
      BlockBounds(g, g.free[j].addr);
    }
  }

  // A wrapped request gets one page, since no free block is that large.
  lemma WrappedAllocation(g: State, size: nat)
    requires Inv(g) && RoomFor(g, size) && size < WORD_LIMIT <= size + BIG_HEADER
    ensures var (g1, p1) := Allocated(g, size); Capacity(g1, p1) == BigCapacity(1)
  {
    BinIsSmallestFit(size);
    NoFreeBlockFits(g, size);
    assert PagesFor(size) == 1;
    GrowBigInv(g, PagesFor(size));
  }

  // What calloc's clear leaves, and where it would end.
  lemma ClearedBlock(g: State, m: Memory, m1: Memory, r: Roots, head: int, level: int, total: nat)
    requires Inv(g) && RoomFor(g, total) && 0 < total < WORD_LIMIT
    requires var g1 := Allocated(g, total).0;
             && Represents(m1, r, g1) && ListOk(m1, head, level, g1.free) && head + BIG_HEADER <= g1.start && head > 0
    requires ClientsUntouched(g, m, m1, 0)
    ensures var (g1, p) := Allocated(g, total);
            var m2 := Filled(m1, p, 0, total);
            && (total + BIG_HEADER >= WORD_LIMIT ==> g1.top < p + total)
            && (total + BIG_HEADER < WORD_LIMIT ==>
                  && Represents(m2, r, g1) && ListOk(m2, head, level, g1.free) && ClientsUntouched(g, m, m2, 0)
                  && forall y :: p <= y < p + total ==> ByteAt(m2, y) == 0)
  {
    var (g1, p) := Allocated(g, total);
    AllocationIsNew(g, total);
    LiveInside(g1, p);
    BlockBounds(g1, g1.live[p]);
    if total + BIG_HEADER < WORD_LIMIT {
      FilledInside(g1, m1, p, total);
      ClientWrites(g1, m1, Filled(m1, p, 0, total), r, head, level, p);
      UntouchedByNewcomer(g, g1, m, m1, Filled(m1, p, 0, total), p);
    }
  }

  // What popping the first slab of a bin leaves of everything else.
  lemma FirstTaken(g: State, m: Memory, r: Roots, k: nat, head: int, level: int)
    requires Inv(g) && Represents(m, r, g) && k < BIG_BIN && |g.bins| == BIG_BIN && |r.heads| == BIG_BIN
    requires g.bins[k] != [] && g.bins[k][0] in g.stacks && g.stacks[g.bins[k][0]] != []
    requires head + BIG_HEADER <= g.start && ListOk(m, head, level, g.free)
    ensures var a := g.bins[k][0];
            var m' := PoppedCell(m, a, |g.stacks[a]| == 1);
            && Inv(TakeCell(g, k)) && ListOk(m', head, level, g.free) && ClientsUntouched(g, m, m', 0)
            && Above(m, m', g.top)
  {
    var a := g.bins[k][0];
    var m' := PoppedCell(m, a, |g.stacks[a]| == 1);
    FirstCell(g, k);
    BlockBounds(g, a);
    CellBounds(a, k, g.stacks[a][0]);
    LocalKeepsList(g, m, m', head, level, a, g.stacks[a][0]);
    HeaderMissesClients(g, m, m', a);
    TakeCellInv(g, k);
  }

  class Heap {
    const ram: Ram
    const bigs: BigBins
    var placement: int
    var heapEnd: int
    var heads: seq<int>
    var newest: int
    ghost var g: State

    ghost predicate Valid()
      reads this, ram, bigs
    {
      && bigs.ram == ram && bigs.Valid() && bigs.free == g.free
      && 0 < bigs.head && bigs.head + BIG_HEADER <= g.start
      && Inv(g) && Represents(ram.m, Roots(heads, newest), g)
      && heapEnd == g.top && placement < g.start
    }

    // The allocator's globals before init_heap: heap_end is 0. `head` is where the
    // skip list's head lies.
    constructor (ram: Ram, head: int)
      requires 0 < head && forall i :: 0 <= i <= MAX_LEVEL ==> Rd(ram.m, Slot(head, i)) == 0
      ensures fresh(bigs) && this.ram == ram && bigs.head == head && Unstarted()
    {
      this.ram := ram;
      this.bigs := new BigBins(ram, head);
      this.placement := 0;
      heapEnd := 0;
      heads := seq(BIG_BIN, _ => 0);
      newest := 0;
      g := Empty(PAGE);
    }

    ghost predicate Unstarted()
      reads this, ram, bigs
    {
      Blank() && bigs.Valid()
    }

    // What these two say of the variables alone, and of a memory.
    ghost predicate Blank()
      reads this, bigs
    {
      && bigs.ram == ram && bigs.free == []
      && heapEnd == 0 && heads == seq(BIG_BIN, _ => 0) && newest == 0 && g == Empty(PAGE)
    }

    ghost predicate Stands()
      reads this, bigs
    {
      && bigs.ram == ram && bigs.free == g.free && 0 < bigs.head && bigs.head + BIG_HEADER <= g.start
      && Inv(g) && heapEnd == g.top && placement < g.start
    }

    ghost predicate In(m: Memory)
      reads this, bigs
    {
      ListOk(m, bigs.head, bigs.level, bigs.free) && Represents(m, Roots(heads, newest), g)
    }

    // `init_heap`: the heap starts at the first page boundary past the placement
    // blocks, among which the skip list's head lies.
    method InitHeap(pointer: int)
      requires Unstarted() && bigs.head + BIG_HEADER <= pointer && pointer + 0x1000 < WORD_LIMIT - PAGE
      modifies this`placement, this`heapEnd, this`g
      ensures Valid() && placement == pointer
      ensures g == Empty(heapEnd) && pointer < heapEnd <= pointer + 0x1000
    {
      assert bigs.head > 0 by { ListUnfold(ram.m, bigs.head, bigs.level, []); assert NodeAt(bigs.head, [], 0) > 0; }
      placement := pointer;
      PageMask(pointer + 0x1000);
      heapEnd := And(pointer + 0x1000, 0xFFFFF000);
      g := Empty(heapEnd);
      EmptyOk(ram.m, heapEnd);
    }

    method Sbrk(increment: nat) returns (address: int)
      modifies this`heapEnd, ram
      ensures address == old(heapEnd) && heapEnd == old(heapEnd) + increment
      ensures ram.m == Filled(old(ram.m), address, 0, increment)
    {
      address := heapEnd;
      heapEnd := heapEnd + increment;
      ram.MemSet(address, 0, increment);
    }

    // A new one-page slab of bin k, put in front of the bin's list.
    method NewSlab(k: nat) returns (a: int)
      requires Valid() && k < BIG_BIN && g.top + PAGE < WORD_LIMIT
      modifies this`heapEnd, this`heads, this`g, ram
      ensures Valid() && |old(g).bins| == BIG_BIN && g == GrowSlab(old(g), k) && a == old(g).top
      ensures ClientsUntouched(old(g), old(ram.m), ram.m, 0)
      ensures Above(old(ram.m), ram.m, heapEnd)
    {
      ghost var m0, r0 := ram.m, Roots(heads, newest);
      NotPastTop(g);
      BinCount(g);
      assert Fits(Lists, ram.m, r0, g);
      FirstInRange(ram.m, r0, g, k);
      a := FormatSlab(k);
      SlabRepresented(m0, ram.m, r0, g, k);
      GrowthKeepsList(g, m0, ram.m, bigs.head, bigs.level, 0);
      GrowthMissesClients(g, m0, ram.m, 0);
      GrowSlabInv(g, k);
      g := GrowSlab(g, k);
    }

    // The writes that make a slab: its header, its place at the front of the
    // bin's list, and its cells threaded into a stack in ascending order.
    method FormatSlab(k: nat) returns (a: int)
      requires 0 < heapEnd && heapEnd % 0x1000 == 0 && heapEnd + PAGE < WORD_LIMIT
      requires k < BIG_BIN == |heads| && 0 <= heads[k] < WORD_LIMIT
      modifies this`heapEnd, this`heads, ram
      ensures a == old(heapEnd) && heapEnd == a + PAGE && heads == old(heads)[k := a]
      ensures forall x :: x < a ==> Rd(ram.m, x) == Rd(old(ram.m), x)
      ensures Rd(ram.m, a) == old(heads)[k] && Rd(ram.m, a + 8) == k && Rd(ram.m, a + 12) == BIN_MAGIC
      ensures Chain(ram.m, Rd(ram.m, a + 4), CellsFrom(a, k, 0))
      ensures Above(old(ram.m), ram.m, heapEnd)
    {
      ghost var m0 := ram.m;
      a := Sbrk(PAGE);
      BelowFilled(m0, a, PAGE);
      ram.Store(a + 12, BIN_MAGIC);
      ram.Store(a + 4, a + SMALL_HEADER);
      ram.Store(a, heads[k]);
      heads := heads[k := a];
      ThreadCells(a, k);
    }

    // Each free cell holds the address of the next, the last one NULL; then the
    // bin number goes into the header.
    method ThreadCells(a: int, k: nat)
      requires 0 < a && a + PAGE < WORD_LIMIT && k < BIG_BIN
      modifies ram
      ensures Chain(ram.m, a + SMALL_HEADER, CellsFrom(a, k, 0)) && Rd(ram.m, a + 8) == k
      ensures forall x :: x < a + SMALL_HEADER && x != a + 8 ==> Rd(ram.m, x) == Rd(old(ram.m), x)
      ensures Above(old(ram.m), ram.m, a + PAGE)
    {
      CellCountBounds(k);
      ghost var m0 := ram.m;
      var available := CellCount(k) - 1;
      var i := 0;
      while i < available
        invariant 0 <= i <= available
        invariant Threaded(ram.m, a, k, i)
        invariant forall x :: x < a + SMALL_HEADER || a + PAGE <= x ==> Rd(ram.m, x) == Rd(m0, x)
      {
        CellInPage(a, k, i);
        CellInPage(a, k, i + 1);
        ThreadStep(ram.m, a, k, i, CellAddr(a, k, i + 1));
        ram.Store(CellAddr(a, k, i), CellAddr(a, k, i + 1));
        i := i + 1;
      }
      CellInPage(a, k, available);
      ThreadEnd(ram.m, a, k, available);
      ram.Store(CellAddr(a, k, available), 0);
      HeaderStoreKeeps(ram.m, a, k, k);
      ram.Store(a + 8, k);
      ThreadedChain(ram.m, a, k, 0);
    }

    method StackPop(header: int) returns (item: int)
      modifies ram
      ensures item == Rd(old(ram.m), header + 4)
      ensures ram.m == old(ram.m)[header + 4 := Rd(old(ram.m), item)]
    {
      item := Rd(ram.m, header + 4);
      var next := Rd(ram.m, item);
      ram.Store(header + 4, next);
    }

    method StackPush(header: int, p: int)
      requires 0 <= p < WORD_LIMIT
      modifies ram
      ensures ram.m == old(ram.m)[p := Rd(old(ram.m), header + 4)][header + 4 := p]
    {
      ram.Store(p, Rd(ram.m, header + 4));
      ram.Store(header + 4, p);
    }

    // A cell of bin k: from the first slab on its list, or from a new one.
    method MallocSmall(k: nat) returns (item: int)
      requires Valid() && k < BIG_BIN && |g.bins| == BIG_BIN && (g.bins[k] == [] ==> g.top + PAGE < WORD_LIMIT)
      modifies this`heapEnd, this`heads, this`g, ram
      ensures Valid() && (g, item) == AllocatedSmall(old(g), k)
      ensures ClientsUntouched(old(g), old(ram.m), ram.m, 0)
      ensures Above(old(ram.m), ram.m, heapEnd)
    {
      ghost var g0, m0 := g, ram.m;
      assert Fits(Lists, ram.m, Roots(heads, newest), g);
      FirstInRange(ram.m, Roots(heads, newest), g, k);
      var header := heads[k];
      if header == 0 {
        header := NewSlab(k);
        GrownClientsKeep(g0, k);
      }
      assert g == Stocked(g0, k) && header == g.bins[k][0];
      ghost var g1, m1 := g, ram.m;
      item := TakeFirst(k, header);
      UntouchedTwice(g0, g1, m0, m1, ram.m, 0);
    }

    // Pop the first slab's stack; drop the slab from its list once it is full.
    method TakeFirst(k: nat, header: int) returns (item: int)
      requires Valid() && k < BIG_BIN && |g.bins| == BIG_BIN && g.bins[k] != [] && header == g.bins[k][0]
      modifies this`heads, this`g, ram
      ensures header in old(g).stacks && old(g).stacks[header] != []
      ensures Valid() && g == TakeCell(old(g), k) && item == old(g).stacks[header][0]
      ensures ClientsUntouched(old(g), old(ram.m), ram.m, 0)
      ensures Above(old(ram.m), ram.m, heapEnd)
    {
      ghost var m0, r0 := ram.m, Roots(heads, newest);
      assert Fits(Lists, m0, r0, g);
      FirstCell(g, k);
      TopCell(m0, r0, g, k);
      TakeCellRepresented(m0, r0, g, k);
      FirstTaken(g, m0, r0, k, bigs.head, bigs.level);
      item := StackPop(header);
      if Rd(ram.m, header + 4) == 0 {
        var next := Rd(ram.m, header);
        heads := heads[k := next];
        ram.Store(header, 0);
      }
      g := TakeCell(g, k);
    }

    // A big block of at least `size` bytes: the best fit on the free list, or
    // new pages.
    method MallocBig(size: nat) returns (item: int)
      requires Valid() && size < WORD_LIMIT
      requires LowerBound(g.free, size) == |g.free| ==> g.top + PagesFor(size) * 0x1000 < WORD_LIMIT
      modifies this`heapEnd, this`newest, this`g, bigs, ram
      ensures Valid() && (g, item) == AllocatedBig(old(g), size)
      ensures ClientsUntouched(old(g), old(ram.m), ram.m, 0)
      ensures Above(old(ram.m), ram.m, heapEnd)
    {
      ghost var j := LowerBound(g.free, size);
      var header := bigs.FindBest(size);
      if j < |g.free| {
        FreeBlock(g, j);
        BlockBounds(g, header);
        BestFitIsFirstOfItsSize(g.free, size);
      }
      if header != 0 {
        item := TakeBlock(header, j);
      } else {
        item := NewBlock(size);
      }
    }

    // Unlink the block found, the first of its size, and pop its one cell.
    method TakeBlock(header: int, ghost j: nat) returns (item: int)
      requires Valid() && j < |g.free| && header == g.free[j].addr
      requires j == LowerBound(g.free, g.free[j].size)
      modifies this`g, bigs, ram
      ensures Valid() && g == TakeBig(old(g), j) && item == header + BIG_HEADER
      ensures ClientsUntouched(old(g), old(ram.m), ram.m, 0)
      ensures Above(old(ram.m), ram.m, heapEnd)
    {
      ghost var m0, r := ram.m, Roots(heads, newest);
      bigs.Delete(header, j);
      ListWritesKeep(g, m0, ram.m, r, bigs.head);
      ghost var m1 := ram.m;
      item := StackPop(header);
      TakenBlock(g, m1, r, bigs.head, bigs.level, j);
      UntouchedTwice(g, g, m0, m1, ram.m, 0);
      TakeBigInv(g, j);
      g := TakeBig(g, j);
    }

    // New pages for one client, linked behind the newest big block.
    method NewBlock(size: nat) returns (item: int)
      requires Valid() && size < WORD_LIMIT && g.top + PagesFor(size) * 0x1000 < WORD_LIMIT
      modifies this`heapEnd, this`newest, this`g, ram
      ensures Valid() && g == GrowBig(old(g), PagesFor(size)) && item == old(g).top + BIG_HEADER
      ensures ClientsUntouched(old(g), old(ram.m), ram.m, 0)
      ensures Above(old(ram.m), ram.m, heapEnd)
    {
      ghost var m0, r := ram.m, Roots(heads, newest);
      NotPastTop(g);
      if newest != 0 { NewestIsBig(m0, r, g); BlockBounds(g, newest); }
      FreshBlockFits(size);
      var pages := (size + BIG_HEADER) % 0x1_0000_0000 / 0x1000 + 1;
      var header := FormatBig(pages);
      NewBigRepresented(m0, ram.m, r, g, pages);
      GrowthKeepsList(g, m0, ram.m, bigs.head, bigs.level, old(newest));
      GrowthMissesClients(g, m0, ram.m, old(newest));
      GrowBigInv(g, pages);
      g := GrowBig(g, pages);
      item := header + BIG_HEADER;
    }

    method FormatBig(pages: nat) returns (header: int)
      requires pages > 0 && 0 < heapEnd && heapEnd % 0x1000 == 0 && heapEnd + pages * 0x1000 < WORD_LIMIT
      requires 0 <= newest < heapEnd
      modifies this`heapEnd, this`newest, ram
      ensures header == old(heapEnd) && heapEnd == header + pages * 0x1000 && newest == header
      ensures forall x :: x < header && x != old(newest) ==> Rd(ram.m, x) == Rd(old(ram.m), x)
      ensures old(newest) != 0 ==> Rd(ram.m, old(newest)) == header
      ensures Rd(ram.m, header) == 0 && Rd(ram.m, header + 4) == 0 && Rd(ram.m, header + 16) == old(newest)
      ensures Rd(ram.m, header + 8) == BigCapacity(pages) && Rd(ram.m, header + 12) == BIN_MAGIC
      ensures Above(old(ram.m), ram.m, heapEnd)
    {
      ghost var m0 := ram.m;
      header := Sbrk(0x1000 * pages);
      BelowFilled(m0, header, 0x1000 * pages);
      WriteBigHeader(header, pages * 0x1000 - BIG_HEADER);
    }

    // The header of a fresh big block past the newest one, linked with it both ways.
    method WriteBigHeader(header: int, size: Word)
      requires 0 <= newest < header < WORD_LIMIT
      modifies this`newest, ram
      ensures newest == header
      ensures forall x :: x < header && x != old(newest) ==> Rd(ram.m, x) == Rd(old(ram.m), x)
      ensures old(newest) != 0 ==> Rd(ram.m, old(newest)) == header
      ensures Rd(ram.m, header) == 0 && Rd(ram.m, header + 4) == 0 && Rd(ram.m, header + 16) == old(newest)
      ensures Rd(ram.m, header + 8) == size && Rd(ram.m, header + 12) == BIN_MAGIC
      ensures Above(old(ram.m), ram.m, header + BIG_HEADER)
    {
      ghost var m0 := ram.m;
      ram.Store(header + 12, BIN_MAGIC);
      ram.Store(header + 8, size);
      ram.Store(header + 16, newest);
      ghost var m1 := ram.m;
      FieldsStored(m0, header, size, newest);
      if newest != 0 {
        ram.Store(newest, header);
      }
      LinksStored(m1, newest, header);
      newest := header;
      ram.Store(header, 0);
      ram.Store(header + 4, 0);
    }

    // `klmalloc`
    method KlMalloc(size: nat) returns (p: int)
      requires Valid() && size < WORD_LIMIT && RoomFor(g, size)
      modifies this`heapEnd, this`heads, this`newest, this`g, bigs, ram
      ensures Valid() && (g, p) == Allocated(old(g), size)
      ensures ClientsUntouched(old(g), old(ram.m), ram.m, 0)
      ensures Above(old(ram.m), ram.m, heapEnd)
    {
      if size == 0 {
        return 0;
      }
      var bucket := BinSize(size);
      BinIsSmallestFit(size);
      if bucket < BIG_BIN {
        p := MallocSmall(bucket);
      } else {
        p := MallocBig(size);
      }
    }

    // `klfree`
    method KlFree(ptr: int) returns (ghost height: nat)
      requires Valid() && (ptr == 0 || ptr in g.live)
      modifies this`heads, this`g, bigs, ram
      ensures Valid() && height <= MAX_LEVEL
      ensures if ptr == 0 then g == old(g) && ram.m == old(ram.m) else g == Freed(old(g), ptr, height)
      ensures ptr != 0 ==> g.live == old(g.live) - {ptr}
      ensures ClientsUntouched(old(g), old(ram.m), ram.m, ptr)
    {
      height := 0;
      if ptr == 0 {
        return;
      }
      FoundHeader(ram.m, Roots(heads, newest), g, ptr);
      HeaderRecovered(g, ptr);
      var p := ptr;
      if ptr % 0x1000 == 0 {
        p := ptr - 1;
      }
      var header := And(p, 0xFFFFF000);
      if Rd(ram.m, header + 12) != BIN_MAGIC {
        return;
      }
      var bucket := Rd(ram.m, header + 8);
      if bucket > NUM_BINS {
        height := FreeBig(header, ptr);
      } else {
        FreeSmall(header, p, bucket);
      }
    }

    method FreeSmall(header: int, p: int, k: nat)
      requires Valid() && p in g.live && header == g.live[p]
      requires header in g.kind && g.kind[header] == Slab(k)
      modifies this`heads, this`g, ram
      ensures Valid() && g == Freed(old(g), p, 0) && header in old(g.stacks) && k < |old(g.bins)|
      ensures g == old(g).(stacks := old(g.stacks)[header := [p] + old(g.stacks)[header]], live := old(g.live) - {p},
                           bins := if old(g.stacks)[header] == [] then old(g.bins)[k := [header] + old(g.bins)[k]]
                                   else old(g.bins))
      ensures ClientsUntouched(old(g), old(ram.m), ram.m, p)
    {
      ghost var m0, r0 := ram.m, Roots(heads, newest);
      LiveCell(g, p);
      LiveInside(g, p);
      BlockBounds(g, header);
      assert Fits(Lists, m0, r0, g);
      FirstInRange(m0, r0, g, k);
      FullSlab(m0, r0, g, header);
      GiveCellRepresented(m0, r0, g, p);
      GiveCellInv(g, p);
      if Rd(ram.m, header + 4) == 0 {
        ram.Store(header, heads[k]);
        heads := heads[k := header];
      }
      StackPush(header, p);
      LocalKeepsList(g, m0, ram.m, bigs.head, bigs.level, header, p);
      forall c | Owns(g, c, p) ensures c == p { CellOwner(g, p, c); }
      LocalMissesClients(g, m0, ram.m, header, p, p);
      g := GiveCell(g, p);
    }

    // Push the block's space back and list it again.
    method FreeBig(header: int, ghost p: int) returns (ghost height: nat)
      requires Valid() && p in g.live && header == g.live[p] && header in g.kind && g.kind[header].Big?
      modifies this`g, bigs, ram
      ensures Valid() && height <= MAX_LEVEL && g == Freed(old(g), p, height)
      ensures ClientsUntouched(old(g), old(ram.m), ram.m, p)
    {
      ghost var m0, r := ram.m, Roots(heads, newest);
      LiveBig(g, p);
      BlockBounds(g, header);
      StackPush(header, header + BIG_HEADER);
      ghost var m1 := ram.m;
      LocalKeepsList(g, m0, m1, bigs.head, bigs.level, header, header + BIG_HEADER);
      BlockClear(g, bigs.head, p);
      assert Rd(m1, header + 8) == BigCapacity(g.kind[header].pages) by { assert Fits(Headers, m0, r, g); }
      height := bigs.Insert(header);
      GivenBlock(g, m0, m1, ram.m, r, bigs.head, p, height);
      g := Freed(g, p, height);
    }

    // `klvalloc`: a big block with a page to spare, from whose start the client
    // skips to the next page boundary. Both additions wrap at 32 bits.
    method KlValloc(size: nat) returns (out: int)
      requires Valid() && size < WORD_LIMIT && RoomFor(g, VallocSize(size))
      modifies this`heapEnd, this`heads, this`newest, this`g, bigs, ram
      ensures Valid() && (g, out) == Valloced(old(g), size)
      ensures ClientsUntouched(old(g), old(ram.m), ram.m, 0)
      ensures Above(old(ram.m), ram.m, heapEnd)
    {
      var trueSize := (size + PAGE - BIG_HEADER) % 0x1_0000_0000;
      ghost var g0 := g;
      var result := KlMalloc(trueSize);
      out := (result + (PAGE - BIG_HEADER)) % 0x1_0000_0000;
      if trueSize > 2048 {
        VallocedBig(g0, size);
        RealignInv(g, result);
        RealignRepresented(ram.m, Roots(heads, newest), g, result);
        g := Realign(g, result);
      }
    }

    // `free`: placement blocks lie at or below placement_pointer and are ignored.
    method Free(ptr: int) returns (ghost height: nat)
      requires Valid() && (ptr <= placement || ptr in g.live)
      modifies this`heads, this`g, bigs, ram
      ensures Valid() && height <= MAX_LEVEL
      ensures ptr <= placement ==> g == old(g) && ram.m == old(ram.m) && ptr !in g.live
      ensures ptr > placement ==> g == Freed(old(g), ptr, height)
      ensures ClientsUntouched(old(g), old(ram.m), ram.m, ptr)
    {
      height := 0;
      if ptr in g.live { LiveInside(g, ptr); BlockBounds(g, g.live[ptr]); }
      if ptr > placement {
        height := KlFree(ptr);
      }
    }

    // A client writes one byte of its own.
    method ClientStore(p: int, x: int, v: Byte)
      requires Valid() && Owns(g, p, x)
      modifies ram
      ensures Valid() && ram.m == StoreByte(old(ram.m), x, v)
      ensures ClientsUntouched(g, old(ram.m), ram.m, p)
    {
      ClientWrites(g, ram.m, StoreByte(ram.m, x, v), Roots(heads, newest), bigs.head, bigs.level, p) by {
        LiveAligned(g, p);
        WordStart(p, x - p);
      }
      ram.m := StoreByte(ram.m, x, v);
    }

    // `klcalloc`; the product wraps at 32 bits. For the last 48 products the block
    // is too small, and the clear runs past the end of the heap.
    method KlCalloc(nmemb: nat, size: nat) returns (p: int)
      requires Valid() && RoomFor(g, nmemb * size % 0x1_0000_0000)
      modifies this`heapEnd, this`heads, this`newest, this`g, bigs, ram
      ensures (g, p) == Allocated(old(g), nmemb * size % 0x1_0000_0000)
      ensures nmemb * size % 0x1_0000_0000 + BIG_HEADER < WORD_LIMIT ==>
                && Valid() && ClientsUntouched(old(g), old(ram.m), ram.m, 0)
                && (p != 0 ==> forall y :: p <= y < p + nmemb * size % 0x1_0000_0000 ==> ByteAt(ram.m, y) == 0)
      ensures nmemb * size % 0x1_0000_0000 + BIG_HEADER >= WORD_LIMIT ==>
                p != 0 && g.top < p + nmemb * size % 0x1_0000_0000
    {
      var total := nmemb * size % 0x1_0000_0000;
      if total > 0 { AllocationIsNew(g, total); }
      p := KlMalloc(total);
      if p != 0 {
        ClearedBlock(old(g), old(ram.m), ram.m, Roots(heads, newest), bigs.head, bigs.level, total);
        ram.MemSet(p, 0, total);
      }
    }

    // `klrealloc`. Which header it reads is clear for a pointer that is not
    // page-aligned; for others, those from valloc, it reads what lies behind the
    // pointer. A move may not copy more than either block holds.
    method KlRealloc(ptr: int, size: nat) returns (r: int, ghost height: nat)
      requires Valid() && size < WORD_LIMIT && (ptr == 0 || ptr in g.live)
      requires ptr == 0 ==> RoomFor(g, size)
      requires ptr != 0 && Moves(ram.m, ptr, size) ==> RoomFor(g, size) && MoveFits(g, ram.m, ptr, size)
      modifies this`heapEnd, this`heads, this`newest, this`g, bigs, ram
      ensures Valid() && height <= MAX_LEVEL
      ensures ptr == 0 ==> (g, r) == Allocated(old(g), size)
      ensures ptr != 0 && size == 0 ==> r == 0 && g == Freed(old(g), ptr, height)
      ensures ptr != 0 && size > 0 && !Recognised(old(ram.m), ptr) ==> r == 0 && g == old(g) && ram.m == old(ram.m)
      ensures ptr != 0 && size > 0 && Recognised(old(ram.m), ptr) && size <= SizeRead(old(ram.m), ptr) ==>
                r == ptr && g == old(g) && ram.m == old(ram.m)
      ensures ptr != 0 && size > 0 && Recognised(old(ram.m), ptr) && SizeRead(old(ram.m), ptr) < size ==>
                var (g1, p1) := Allocated(old(g), size);
                && r == p1 && ptr in g1.live && g == Freed(g1, ptr, height)
                && SameContents(old(ram.m), ptr, ram.m, r, SizeRead(old(ram.m), ptr))
      ensures ptr != 0 && ptr % 0x1000 != 0 ==>
                Recognised(old(ram.m), ptr) && SizeRead(old(ram.m), ptr) == Capacity(old(g), ptr)
      ensures ptr % 0x1000 != 0 && 0 < size && size + 48 < 0x1_0000_0000 ==>
                r in g.live && size <= Capacity(g, r) && (r == ptr <==> size <= Capacity(old(g), ptr))
      ensures ClientsUntouched(old(g), old(ram.m), ram.m, ptr)
    {
      height := 0;
      if ptr == 0 {
        r := KlMalloc(size);
        return;
      }
      if ptr % 0x1000 != 0 { SizeReadIs(ram.m, Roots(heads, newest), g, ptr); }
      if size == 0 {
        LiveInside(g, ptr);
        BlockBounds(g, g.live[ptr]);
        height := Free(ptr);
        return 0, height;
      }
      var known, oldSize := OldSize(ptr);
      if !known {
        return 0, height;
      }
      if oldSize >= size {
        return ptr, height;
      }
      AllocationIsNew(g, size);
      r, height := MoveBlock(ptr, oldSize, size);
    }

    // What klrealloc takes for the header of a block, and the size it reads there.
    method OldSize(ptr: int) returns (known: bool, oldSize: nat)
      requires Valid() && ptr in g.live
      ensures known == Recognised(ram.m, ptr) && oldSize == SizeRead(ram.m, ptr)
    {
      LiveInside(g, ptr);
      BlockBounds(g, g.live[ptr]);
      PageMask(ptr);
      var header := And(ptr, 0xFFFFF000);
      known, oldSize := Rd(ram.m, header + 12) == BIN_MAGIC, Rd(ram.m, header + 8);
      if oldSize < BIG_BIN {
        oldSize := Pow2(2 + oldSize);
      }
    }

    // The growing case: a new block, the contents that fit both, the old block freed.
    method MoveBlock(ptr: int, oldSize: nat, size: nat) returns (r: int, ghost height: nat)
      requires Valid() && ptr in g.live && 0 < size < WORD_LIMIT && RoomFor(g, size)
      requires oldSize <= Capacity(g, ptr) && oldSize <= Capacity(Allocated(g, size).0, Allocated(g, size).1)
      modifies this`heapEnd, this`heads, this`newest, this`g, bigs, ram
      ensures Valid() && height <= MAX_LEVEL
      ensures var (g1, p1) := Allocated(old(g), size);
              && r == p1 && ptr in g1.live && g == Freed(g1, ptr, height)
      ensures SameContents(old(ram.m), ptr, ram.m, r, oldSize)
      ensures ClientsUntouched(old(g), old(ram.m), ram.m, ptr)
    {
      ghost var g0, m0 := g, ram.m;
      LiveInside(g0, ptr);
      AllocationIsNew(g0, size);
      r := KlMalloc(size);
      ghost var g1, m1 := g, ram.m;
      CopyOver(r, ptr, oldSize);
      ghost var m2 := ram.m;
      UntouchedByNewcomer(g0, g1, m0, m1, m2, r);
      height := KlFree(ptr);
      MovedBytes(g0, g1, m0, m1, m2, ram.m, ptr, r, oldSize);
      MovedClients(g0, g1, m0, m2, ram.m, ptr);
    }

    // memcpy between two blocks in clients' hands.
    method CopyOver(dst: int, src: int, len: nat)
      requires Valid() && dst in g.live && src in g.live && dst != src
      requires len <= Capacity(g, dst) && len <= Capacity(g, src)
      modifies ram
      ensures Valid() && SameContents(old(ram.m), src, ram.m, dst, len)
      ensures ClientsUntouched(g, old(ram.m), ram.m, dst)
    {
      CopiedInside(g, ram.m, dst, src, len);
      ClientWrites(g, ram.m, Copied(ram.m, dst, src, len), Roots(heads, newest), bigs.head, bigs.level, dst);
      ram.MemCpy(dst, src, len);
    }
  }
}
