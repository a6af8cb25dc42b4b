// How the allocator state lies in memory: block headers, free stacks threaded
// through the cells, bin lists through the slab headers, and the physical chain
// of big blocks. (The skip list's towers are described in SkipLists.)
module HeapMemory {
  import opened RamModel
  import opened SizeClasses
  import opened SkipLists
  import opened HeapState
  import opened HeapInvariant

  const BIN_MAGIC: int := 0xDEFAD00D

  // A NULL-terminated list whose links are the first word of each element.
  ghost predicate Chain(m: Memory, first: int, s: seq<int>)
    decreases |s|
  {
    if s == [] then first == 0
    else first == s[0] && first != 0 && Chain(m, Rd(m, first), s[1..])
  }

  // The big blocks, oldest first.
  function BigBlocks(order: seq<int>, kind: map<int, Kind>): seq<int> {
    if order == [] then []
    else
      var n := |order| - 1;
      var rest := BigBlocks(order[..n], kind);
      if order[n] in kind && kind[order[n]].Big? then rest + [order[n]] else rest
  }

  function PrevOf(s: seq<int>, i: nat): int
    requires i < |s|
  {
    if i == 0 then 0 else s[i - 1]
  }

  function NextOf(s: seq<int>, i: nat): int
    requires i < |s|
  {
    if i == |s| - 1 then 0 else s[i + 1]
  }

  // prev (at 16) and next (at 0) of every big block.
  ghost predicate Physical(m: Memory, newest: int, s: seq<int>) {
    && newest == (if s == [] then 0 else s[|s| - 1])
    && (forall i {:trigger PrevOf(s, i)} {:trigger NextOf(s, i)} :: 0 <= i < |s| ==>
          Rd(m, s[i] + 16) == PrevOf(s, i) && Rd(m, s[i]) == NextOf(s, i))
  }

  // The allocator's own variables beside memory.
  datatype Roots = Roots(heads: seq<int>, newest: int)

  datatype Piece = Headers | Stacks | Lists | BigHeads | Neighbours

  ghost predicate Fits(c: Piece, m: Memory, r: Roots, g: State) {
    match c
    case Headers =>
      forall a :: a in g.kind ==> Rd(m, a + 8) == SizeField(g.kind[a]) && Rd(m, a + 12) == BIN_MAGIC
    case Stacks =>
      forall a :: a in g.stacks ==> Chain(m, Rd(m, a + 4), g.stacks[a])
    case Lists =>
      |r.heads| == |g.bins| && forall k :: 0 <= k < |g.bins| ==> Chain(m, r.heads[k], g.bins[k])
    case BigHeads =>
      forall a :: a in g.user ==>
        if g.user[a] == 0 then Rd(m, a + 4) == a + BIG_HEADER && Rd(m, a + BIG_HEADER) == 0
        else Rd(m, a + 4) == 0
    case Neighbours =>
      Physical(m, r.newest, BigBlocks(g.order, g.kind))
  }

  ghost predicate Represents(m: Memory, r: Roots, g: State) {
    forall c :: Fits(c, m, r, g)
  }

  // ----- What the representation reads -----

  ghost predicate Meta(g: State, x: int) {
    || (exists a :: a in g.kind && (x == a || x == a + 4 || x == a + 8 || x == a + 12))
    || (exists a :: a in g.user && (x == a + 16 || (g.user[a] == 0 && x == a + BIG_HEADER)))
    || (exists a :: a in g.stacks && x in g.stacks[a])
  }

  ghost predicate SameMeta(g: State, m: Memory, m': Memory) {
    forall x :: Meta(g, x) ==> Rd(m', x) == Rd(m, x)
  }

  lemma {:induction false} ChainKept(m: Memory, m': Memory, first: int, s: seq<int>)
    requires Chain(m, first, s) && forall x :: x in s ==> Rd(m', x) == Rd(m, x)
    ensures Chain(m', first, s)
    decreases |s|
  {
    if s != [] {
      assert s[0] in s;
      assert forall x :: x in s[1..] ==> x in s;
      ChainKept(m, m', Rd(m, first), s[1..]);
    }
  }

  lemma {:induction false} BigBlocksListed(order: seq<int>, kind: map<int, Kind>, b: int)
    ensures b in BigBlocks(order, kind) <==> b in order && b in kind && kind[b].Big?
  {
    if order != [] {
      var n := |order| - 1;
      BigBlocksListed(order[..n], kind, b);
      assert order == order[..n] + [order[n]];
    }
  }

  lemma PhysicalKept(m: Memory, m': Memory, newest: int, s: seq<int>)
    requires Physical(m, newest, s)
    requires forall b :: b in s ==> Rd(m', b) == Rd(m, b) && Rd(m', b + 16) == Rd(m, b + 16)
    ensures Physical(m', newest, s)
  {
    forall i | 0 <= i < |s| ensures Rd(m', s[i] + 16) == PrevOf(s, i) && Rd(m', s[i]) == NextOf(s, i) {
      assert s[i] in s;
    }
  }

  lemma ListedBig(g: State, b: int)
    requires Inv(g) && b in BigBlocks(g.order, g.kind)
    ensures b in g.kind && g.kind[b].Big? && b in g.user
  {
    BigBlocksListed(g.order, g.kind, b);
    assert Holds(Bigs, g);
  }

  lemma HeadersKept(m: Memory, m': Memory, r: Roots, g: State)
    requires Fits(Headers, m, r, g) && SameMeta(g, m, m')
    ensures Fits(Headers, m', r, g)
  {
    forall a | a in g.kind ensures Rd(m', a + 8) == Rd(m, a + 8) && Rd(m', a + 12) == Rd(m, a + 12) {
      assert Meta(g, a + 8) && Meta(g, a + 12);
    }
  }

  lemma StacksKept(m: Memory, m': Memory, r: Roots, g: State)
    requires Inv(g) && Fits(Stacks, m, r, g) && SameMeta(g, m, m')
    ensures Fits(Stacks, m', r, g)
  {
    assert Holds(Slabs, g);
    forall a | a in g.stacks ensures Chain(m', Rd(m', a + 4), g.stacks[a]) {
      assert Meta(g, a + 4);
      forall x | x in g.stacks[a] ensures Rd(m', x) == Rd(m, x) { assert Meta(g, x); }
      ChainKept(m, m', Rd(m, a + 4), g.stacks[a]);
    }
  }

  lemma ListsKept(m: Memory, m': Memory, r: Roots, g: State)
    requires Inv(g) && Fits(Lists, m, r, g) && SameMeta(g, m, m')
    ensures Fits(Lists, m', r, g)
  {
    assert Holds(Bins, g);
    forall k | 0 <= k < |g.bins| ensures Chain(m', r.heads[k], g.bins[k]) {
      forall x | x in g.bins[k] ensures Rd(m', x) == Rd(m, x) {
        assert x in g.kind;
        assert Meta(g, x);
      }
      ChainKept(m, m', r.heads[k], g.bins[k]);
    }
  }

  lemma BigHeadsKept(m: Memory, m': Memory, r: Roots, g: State)
    requires Inv(g) && Fits(BigHeads, m, r, g) && SameMeta(g, m, m')
    ensures Fits(BigHeads, m', r, g)
  {
    assert Holds(Bigs, g);
    forall a | a in g.user
      ensures Rd(m', a + 4) == Rd(m, a + 4)
      ensures g.user[a] == 0 ==> Rd(m', a + BIG_HEADER) == Rd(m, a + BIG_HEADER)
    {
      assert Meta(g, a + 4);
      if g.user[a] == 0 { assert Meta(g, a + BIG_HEADER); }
    }
  }

  lemma NeighboursKept(m: Memory, m': Memory, r: Roots, g: State)
    requires Inv(g) && Fits(Neighbours, m, r, g) && SameMeta(g, m, m')
    ensures Fits(Neighbours, m', r, g)
  {
    forall b | b in BigBlocks(g.order, g.kind)
      ensures Rd(m', b) == Rd(m, b) && Rd(m', b + 16) == Rd(m, b + 16)
    {
      ListedBig(g, b);
      assert Meta(g, b) && Meta(g, b + 16);
    }
    PhysicalKept(m, m', r.newest, BigBlocks(g.order, g.kind));
  }

  // Writes that miss every word the representation reads leave it standing.
  lemma RepresentationKept(m: Memory, m': Memory, r: Roots, g: State)
    requires Inv(g) && Represents(m, r, g) && SameMeta(g, m, m')
    ensures Represents(m', r, g)
  {
    forall c ensures Fits(c, m', r, g) {
      assert Fits(c, m, r, g);
      match c {
        case Headers => HeadersKept(m, m', r, g);
        case Stacks => StacksKept(m, m', r, g);
        case Lists => ListsKept(m, m', r, g);
        case BigHeads => BigHeadsKept(m, m', r, g);
        case Neighbours => NeighboursKept(m, m', r, g);
      }
    }
  }

  // ----- Frames -----

  // A word the representation reads lies in one block, in its header or in
  // space no client holds.
  lemma MetaInBlock(g: State, x: int) returns (a: int)
    requires Inv(g) && Meta(g, x)
    ensures a in g.kind && a <= x < a + Len(g.kind[a])
    ensures x < a + 20 || (g.kind[a].Slab? && a in g.stacks && x in g.stacks[a]) ||
            (a in g.user && g.user[a] == 0 && x == a + BIG_HEADER)
    ensures g.kind[a].Slab? ==> x < a + SMALL_HEADER || (a in g.stacks && x in g.stacks[a])
  {
    assert Holds(Slabs, g);
    assert Holds(Bigs, g);
    if exists b :: b in g.kind && (x == b || x == b + 4 || x == b + 8 || x == b + 12) {
      a :| a in g.kind && (x == a || x == a + 4 || x == a + 8 || x == a + 12);
    } else if exists b :: b in g.user && (x == b + 16 || (g.user[b] == 0 && x == b + BIG_HEADER)) {
      a :| a in g.user && (x == a + 16 || (g.user[a] == 0 && x == a + BIG_HEADER));
    } else {
      a :| a in g.stacks && x in g.stacks[a];
      BlockBounds(g, a);
      CellBounds(a, g.kind[a].bucket, x);
    }
    BlockBounds(g, a);
  }

  // The towers of the skip list, its head included, hold none of these words.
  lemma TowersMissMeta(g: State, head: int, free: seq<FreeNode>, x: int)
    requires Inv(g) && Meta(g, x) && head + BIG_HEADER <= g.start
    requires forall j :: 0 <= j < |free| ==> free[j].addr in g.kind && g.kind[free[j].addr].Big?
    ensures !InTower(head, free, x)
  {
    var a := MetaInBlock(g, x);
    BlockBounds(g, a);
    if InTower(head, free, x) {
      var p :| 0 <= p <= |free| && NodeAt(head, free, p) + FORWARD <= x < NodeAt(head, free, p) + BIG_HEADER;
      if p > 0 {
        BlockBounds(g, free[p - 1].addr);
        BlocksApart(g, a, free[p - 1].addr);
      }
    }
  }

  lemma TowersKeep(g: State, head: int, free: seq<FreeNode>, m: Memory, m': Memory)
    requires Inv(g) && head + BIG_HEADER <= g.start && OnlyTowers(m, m', head, free)
    requires forall j :: 0 <= j < |free| ==> free[j].addr in g.kind && g.kind[free[j].addr].Big?
    ensures SameMeta(g, m, m')
  {
    forall x | Meta(g, x) ensures Rd(m', x) == Rd(m, x) {
      TowersMissMeta(g, head, free, x);
    }
  }

  // The bytes behind pointer p belong to its client: no word in them is read
  // by the representation.
  lemma ClientMissesMeta(g: State, p: int, x: int)
    requires Inv(g) && Owns(g, p, x)
    ensures !Meta(g, x)
  {
    var a := g.live[p];
    LiveInside(g, p);
    if Meta(g, x) {
      var b := MetaInBlock(g, x);
      ClientWord(g, p, x);
      BlocksApart(g, a, b);
      match g.kind[a] {
        case Slab(k) => SlabClientApart(g, p, x);
        case Big(_) => LiveBig(g, p);
      }
    }
  }

  lemma SlabClientApart(g: State, p: int, x: int)
    requires Inv(g) && p in g.live && g.live[p] in g.kind && g.kind[g.live[p]].Slab?
    requires p <= x < p + Capacity(g, p)
    ensures g.live[p] in g.stacks && x !in g.stacks[g.live[p]]
  {
    LiveCell(g, p);
    assert Holds(Slabs, g);
    var a := g.live[p];
    if x in g.stacks[a] {
      CellsApart(a, g.kind[a].bucket, p, x);
    }
  }

  // ----- The writes of each operation -----

  // A fresh slab at the top: header and threaded cells written, the rest of
  // memory as before, the bin's list now starting with it.
  lemma SlabRepresented(m: Memory, m': Memory, r: Roots, g: State, k: nat)
    requires Inv(g) && Represents(m, r, g) && k < BIG_BIN && |g.bins| == BIG_BIN && |r.heads| == BIG_BIN
    requires forall x :: x < g.top ==> Rd(m', x) == Rd(m, x)
    requires Rd(m', g.top) == r.heads[k] && Rd(m', g.top + 8) == k && Rd(m', g.top + 12) == BIN_MAGIC
    requires Chain(m', Rd(m', g.top + 4), CellsFrom(g.top, k, 0))
    ensures Represents(m', r.(heads := r.heads[k := g.top]), GrowSlab(g, k))
  {
    var a, g', r' := g.top, GrowSlab(g, k), r.(heads := r.heads[k := g.top]);
    NotPastTop(g);
    BelowTopKept(g, m, m');
    RepresentationKept(m, m', r, g);
    forall c ensures Fits(c, m', r', g') {
      assert Fits(c, m', r, g);
      match c {
        case Headers =>
        case Stacks =>
        case Lists =>
          assert g'.bins[k][1..] == g.bins[k];
        case BigHeads =>
        case Neighbours => BigBlocksGrown(g, Slab(k));
      }
    }
  }

  lemma BelowTopKept(g: State, m: Memory, m': Memory)
    requires Inv(g) && forall x :: x < g.top ==> Rd(m', x) == Rd(m, x)
    ensures SameMeta(g, m, m')
  {
    forall x | Meta(g, x) ensures x < g.top {
      var a := MetaInBlock(g, x);
      BlockBounds(g, a);
    }
  }

  lemma {:induction false} BigBlocksSame(order: seq<int>, kind: map<int, Kind>, kind': map<int, Kind>)
    requires forall b :: b in order ==> b in kind && b in kind' && kind'[b] == kind[b]
    ensures BigBlocks(order, kind') == BigBlocks(order, kind)
  {
    if order != [] {
      var n := |order| - 1;
      var last := order[n];
      assert last in order && last in kind && last in kind' && kind'[last] == kind[last];
      assert forall b :: b in order[..n] ==> b in order;
      BigBlocksSame(order[..n], kind, kind');
      assert BigBlocks(order[..n], kind') == BigBlocks(order[..n], kind);
    }
  }

  lemma BigBlocksGrown(g: State, k: Kind)
    requires Inv(g)
    ensures BigBlocks(g.order + [g.top], g.kind[g.top := k]) ==
            if k.Big? then BigBlocks(g.order, g.kind) + [g.top] else BigBlocks(g.order, g.kind)
  {
    assert Holds(Tiles, g);
    NotPastTop(g);
    assert (g.order + [g.top])[..|g.order|] == g.order;
    BigBlocksSame(g.order, g.kind, g.kind[g.top := k]);
  }

  // ----- Writes inside one block -----

  // Only the next and head words of block a, and the word q behind its header,
  // have changed.
  ghost predicate LocalWrites(m: Memory, m': Memory, a: int, q: int) {
    forall x :: x != a && x != a + 4 && x != q ==> Rd(m', x) == Rd(m, x)
  }

  ghost predicate BehindHeader(g: State, a: int, q: int) {
    a in g.kind && a + HeaderLen(g.kind[a]) <= q < a + Len(g.kind[a])
  }

  lemma HeaderWordsKept(g: State, a: int, q: int, m: Memory, m': Memory, b: int)
    requires Inv(g) && BehindHeader(g, a, q) && LocalWrites(m, m', a, q) && b in g.kind
    ensures Rd(m', b + 8) == Rd(m, b + 8) && Rd(m', b + 12) == Rd(m, b + 12)
    ensures b != a ==> Rd(m', b) == Rd(m, b) && Rd(m', b + 4) == Rd(m, b + 4)
    ensures g.kind[b].Big? ==> Rd(m', b + 16) == Rd(m, b + 16)
    ensures g.kind[b].Big? && b != a ==> Rd(m', b + BIG_HEADER) == Rd(m, b + BIG_HEADER)
  {
    BlockBounds(g, a);
    BlockBounds(g, b);
    BlocksApart(g, a, b);
  }

  lemma OtherStackKept(g: State, a: int, q: int, m: Memory, m': Memory, b: int)
    requires Inv(g) && BehindHeader(g, a, q) && LocalWrites(m, m', a, q)
    requires b in g.stacks && (b != a || q !in g.stacks[b]) && Chain(m, Rd(m, b + 4), g.stacks[b])
    ensures Chain(m', Rd(m, b + 4), g.stacks[b])
  {
    assert Holds(Slabs, g);
    BlockBounds(g, a);
    BlockBounds(g, b);
    BlocksApart(g, a, b);
    forall x | x in g.stacks[b] ensures Rd(m', x) == Rd(m, x) {
      CellBounds(b, g.kind[b].bucket, x);
    }
    ChainKept(m, m', Rd(m, b + 4), g.stacks[b]);
  }

  lemma OtherStacksKept(g: State, a: int, q: int, m: Memory, m': Memory, r: Roots)
    requires Inv(g) && BehindHeader(g, a, q) && LocalWrites(m, m', a, q) && Fits(Stacks, m, r, g)
    ensures forall b :: b in g.stacks && b != a ==> Chain(m', Rd(m', b + 4), g.stacks[b])
  {
    assert Holds(Slabs, g);
    forall b | b in g.stacks && b != a ensures Chain(m', Rd(m', b + 4), g.stacks[b]) {
      OtherStackKept(g, a, q, m, m', b);
      HeaderWordsKept(g, a, q, m, m', b);
    }
  }

  lemma OtherListKept(g: State, a: int, q: int, m: Memory, m': Memory, first: int, s: seq<int>)
    requires Inv(g) && BehindHeader(g, a, q) && LocalWrites(m, m', a, q)
    requires Chain(m, first, s) && a !in s && forall b :: b in s ==> b in g.kind
    ensures Chain(m', first, s)
  {
    forall b | b in s ensures Rd(m', b) == Rd(m, b) {
      HeaderWordsKept(g, a, q, m, m', b);
    }
    ChainKept(m, m', first, s);
  }

  // A write in a slab leaves the headers and everything about big blocks alone.
  lemma SlabWritesKeep(g: State, a: int, q: int, m: Memory, m': Memory, r: Roots, c: Piece)
    requires Inv(g) && BehindHeader(g, a, q) && LocalWrites(m, m', a, q) && g.kind[a].Slab?
    requires Fits(c, m, r, g) && (c == Headers || c == BigHeads || c == Neighbours)
    ensures Fits(c, m', r, g)
  {
    match c {
      case Headers =>
        forall b | b in g.kind ensures Rd(m', b + 8) == Rd(m, b + 8) && Rd(m', b + 12) == Rd(m, b + 12) {
          HeaderWordsKept(g, a, q, m, m', b);
        }
      case BigHeads =>
        assert Holds(Bigs, g);
        forall b | b in g.user
          ensures Rd(m', b + 4) == Rd(m, b + 4) && Rd(m', b + BIG_HEADER) == Rd(m, b + BIG_HEADER)
        {
          HeaderWordsKept(g, a, q, m, m', b);
        }
      case Neighbours =>
        forall b | b in BigBlocks(g.order, g.kind)
          ensures Rd(m', b) == Rd(m, b) && Rd(m', b + 16) == Rd(m, b + 16)
        {
          ListedBig(g, b);
          HeaderWordsKept(g, a, q, m, m', b);
        }
        PhysicalKept(m, m', r.newest, BigBlocks(g.order, g.kind));
      case _ =>
    }
  }

  // ----- Popping a cell -----

  // The memory klmalloc leaves after taking a cell of slab a: the stack popped
  // and, when that was the last free cell, the slab's list link cleared.
  function PoppedCell(m: Memory, a: int, last: bool): Memory {
    var popped := m[a + 4 := Rd(m, Rd(m, a + 4))];
    if last then popped[a := 0] else popped
  }

  lemma TopCell(m: Memory, r: Roots, g: State, k: nat)
    requires Inv(g) && Represents(m, r, g) && k < BIG_BIN && |g.bins| == BIG_BIN && |r.heads| == BIG_BIN
    requires g.bins[k] != []
    ensures g.bins[k][0] in g.stacks && g.stacks[g.bins[k][0]] != []
    ensures var a := g.bins[k][0];
            && r.heads[k] == a && Chain(m, Rd(m, a), g.bins[k][1..])
            && Rd(m, a + 4) == g.stacks[a][0]
            && Chain(m, Rd(m, g.stacks[a][0]), g.stacks[a][1..])
            && (Rd(m, g.stacks[a][0]) == 0 <==> |g.stacks[a]| == 1)
  {
    FirstCell(g, k);
    assert Fits(Lists, m, r, g) && Fits(Stacks, m, r, g);
    var a := g.bins[k][0];
    assert Chain(m, r.heads[k], g.bins[k]);
    assert Chain(m, Rd(m, a + 4), g.stacks[a]);
    ChainEnds(m, Rd(m, g.stacks[a][0]), g.stacks[a][1..]);
  }

  lemma ChainEnds(m: Memory, first: int, s: seq<int>)
    requires Chain(m, first, s)
    ensures first == 0 <==> s == []
  {
  }

  lemma TakeCellRepresented(m: Memory, r: Roots, g: State, k: nat)
    requires Inv(g) && Represents(m, r, g) && k < BIG_BIN && |g.bins| == BIG_BIN && |r.heads| == BIG_BIN
    requires g.bins[k] != [] && g.bins[k][0] in g.stacks && g.stacks[g.bins[k][0]] != []
    ensures var a := g.bins[k][0];
            var last := |g.stacks[a]| == 1;
            Represents(PoppedCell(m, a, last), if last then r.(heads := r.heads[k := Rd(m, a)]) else r,
                       TakeCell(g, k))
  {
    TopCell(m, r, g, k);
    FirstCell(g, k);
    var a, g' := g.bins[k][0], TakeCell(g, k);
    var q, last := g.stacks[a][0], |g.stacks[a]| == 1;
    var m' := PoppedCell(m, a, last);
    var r' := if last then r.(heads := r.heads[k := Rd(m, a)]) else r;
    BlockBounds(g, a);
    CellBounds(a, k, q);
    forall c ensures Fits(c, m', r', g') {
      assert Fits(c, m, r, g);
      match c {
        case Headers => SlabWritesKeep(g, a, q, m, m', r, c);
        case Stacks => TakeCellStacks(m, r, g, k, m');
        case Lists => TakeCellLists(m, r, g, k, m', r');
        case BigHeads => SlabWritesKeep(g, a, q, m, m', r, c);
        case Neighbours => SlabWritesKeep(g, a, q, m, m', r, c);
      }
    }
  }

  lemma TakeCellStacks(m: Memory, r: Roots, g: State, k: nat, m': Memory)
    requires Inv(g) && Represents(m, r, g) && k < BIG_BIN && |g.bins| == BIG_BIN && |r.heads| == BIG_BIN
    requires g.bins[k] != [] && g.bins[k][0] in g.stacks && g.stacks[g.bins[k][0]] != []
    requires m' == PoppedCell(m, g.bins[k][0], |g.stacks[g.bins[k][0]]| == 1)
    ensures Fits(Stacks, m', r, TakeCell(g, k))
  {
    TopCell(m, r, g, k);
    FirstCell(g, k);
    var a := g.bins[k][0];
    var s := g.stacks[a];
    BlockBounds(g, a);
    CellBounds(a, k, s[0]);
    assert Fits(Stacks, m, r, g) && Holds(Slabs, g);
    OtherStacksKept(g, a, s[0], m, m', r);
    forall x | x in s[1..] ensures Rd(m', x) == Rd(m, x) {
      assert x in s;
      CellBounds(a, k, x);
    }
    ChainKept(m, m', Rd(m, s[0]), s[1..]);
  }

  lemma TakeCellLists(m: Memory, r: Roots, g: State, k: nat, m': Memory, r': Roots)
    requires Inv(g) && Represents(m, r, g) && k < BIG_BIN && |g.bins| == BIG_BIN && |r.heads| == BIG_BIN
    requires g.bins[k] != [] && g.bins[k][0] in g.stacks && g.stacks[g.bins[k][0]] != []
    requires var a := g.bins[k][0];
             var last := |g.stacks[a]| == 1;
             m' == PoppedCell(m, a, last) && r' == if last then r.(heads := r.heads[k := Rd(m, a)]) else r
    ensures Fits(Lists, m', r', TakeCell(g, k))
  {
    TopCell(m, r, g, k);
    FirstCell(g, k);
    var a, g' := g.bins[k][0], TakeCell(g, k);
    var q, last := g.stacks[a][0], |g.stacks[a]| == 1;
    BlockBounds(g, a);
    CellBounds(a, k, q);
    assert Fits(Lists, m, r, g) && Holds(Bins, g);
    forall j | 0 <= j < |g.bins| ensures Chain(m', r'.heads[j], g'.bins[j]) {
      assert Chain(m, r.heads[j], g.bins[j]);
      forall b | b in g.bins[j] ensures b in g.kind && (j != k ==> b != a) { assert g.kind[b] == Slab(j); }
      if j != k {
        OtherListKept(g, a, q, m, m', r.heads[j], g.bins[j]);
      } else if last {
        assert forall b :: b in g.bins[k][1..] ==> b in g.bins[k];
        OtherListKept(g, a, q, m, m', Rd(m, a), g.bins[k][1..]);
      } else {
        forall b | b in g.bins[k] ensures Rd(m', b) == Rd(m, b) {
          if b != a { HeaderWordsKept(g, a, q, m, m', b); }
        }
        ChainKept(m, m', a, g.bins[k]);
      }
    }
  }

  // ----- Pushing a cell -----

  // The memory klfree leaves after returning cell p to slab a: a full slab is
  // first linked in front of its bin's list, then the cell is pushed.
  function PushedCell(m: Memory, a: int, p: int, full: bool, first: Word): Memory
    requires 0 <= p < WORD_LIMIT
  {
    var linked := if full then m[a := first] else m;
    linked[p := Rd(linked, a + 4)][a + 4 := p]
  }

  lemma FullSlab(m: Memory, r: Roots, g: State, a: int)
    requires Inv(g) && Represents(m, r, g) && a in g.stacks
    ensures Rd(m, a + 4) == 0 <==> g.stacks[a] == []
  {
    assert Fits(Stacks, m, r, g);
    ChainEnds(m, Rd(m, a + 4), g.stacks[a]);
  }

  lemma GiveCellRepresented(m: Memory, r: Roots, g: State, p: int)
    requires Inv(g) && Represents(m, r, g) && p in g.live && g.live[p] in g.kind && g.kind[g.live[p]].Slab?
    requires g.live[p] in g.stacks && g.kind[g.live[p]].bucket < BIG_BIN && |g.bins| == BIG_BIN == |r.heads|
    requires 0 <= r.heads[g.kind[g.live[p]].bucket] < WORD_LIMIT && 0 <= p < WORD_LIMIT
    ensures var a := g.live[p];
            var k := g.kind[a].bucket;
            var full := g.stacks[a] == [];
            Represents(PushedCell(m, a, p, full, r.heads[k]), if full then r.(heads := r.heads[k := a]) else r,
                       GiveCell(g, p))
  {
    var a, g' := g.live[p], GiveCell(g, p);
    var k, full := g.kind[a].bucket, g.stacks[a] == [];
    var m' := PushedCell(m, a, p, full, r.heads[k]);
    var r' := if full then r.(heads := r.heads[k := a]) else r;
    LiveInside(g, p);
    forall c ensures Fits(c, m', r', g') {
      assert Fits(c, m, r, g);
      match c {
        case Headers => SlabWritesKeep(g, a, p, m, m', r, c);
        case Stacks => GiveCellStacks(m, r, g, p, m');
        case Lists => GiveCellLists(m, r, g, p, m', r');
        case BigHeads => SlabWritesKeep(g, a, p, m, m', r, c);
        case Neighbours => SlabWritesKeep(g, a, p, m, m', r, c);
      }
    }
  }

  lemma GiveCellStacks(m: Memory, r: Roots, g: State, p: int, m': Memory)
    requires Inv(g) && Represents(m, r, g) && p in g.live && g.live[p] in g.kind && g.kind[g.live[p]].Slab?
    requires g.live[p] in g.stacks && g.kind[g.live[p]].bucket < BIG_BIN && |g.bins| == BIG_BIN == |r.heads|
    requires 0 <= r.heads[g.kind[g.live[p]].bucket] < WORD_LIMIT && 0 <= p < WORD_LIMIT
    requires m' == PushedCell(m, g.live[p], p, g.stacks[g.live[p]] == [], r.heads[g.kind[g.live[p]].bucket])
    ensures Fits(Stacks, m', r, GiveCell(g, p))
  {
    var a := g.live[p];
    var s := g.stacks[a];
    LiveInside(g, p);
    LiveCell(g, p);
    assert Fits(Stacks, m, r, g) && Holds(Slabs, g);
    assert p !in s;
    OtherStacksKept(g, a, p, m, m', r);
    OtherStackKept(g, a, p, m, m', a);
    assert ([p] + s)[1..] == s;
    assert Chain(m', p, [p] + s);
  }

  lemma GiveCellLists(m: Memory, r: Roots, g: State, p: int, m': Memory, r': Roots)
    requires Inv(g) && Represents(m, r, g) && p in g.live && g.live[p] in g.kind && g.kind[g.live[p]].Slab?
    requires g.live[p] in g.stacks && g.kind[g.live[p]].bucket < BIG_BIN && |g.bins| == BIG_BIN == |r.heads|
    requires 0 <= r.heads[g.kind[g.live[p]].bucket] < WORD_LIMIT && 0 <= p < WORD_LIMIT
    requires m' == PushedCell(m, g.live[p], p, g.stacks[g.live[p]] == [], r.heads[g.kind[g.live[p]].bucket])
    requires r' == if g.stacks[g.live[p]] == [] then r.(heads := r.heads[g.kind[g.live[p]].bucket := g.live[p]]) else r
    ensures Fits(Lists, m', r', GiveCell(g, p))
  {
    var a, g' := g.live[p], GiveCell(g, p);
    var k, full := g.kind[a].bucket, g.stacks[a] == [];
    LiveInside(g, p);
    BlockBounds(g, a);
    assert Fits(Lists, m, r, g) && Holds(Bins, g);
    forall j | 0 <= j < |g.bins| ensures Chain(m', r'.heads[j], g'.bins[j]) {
      assert Chain(m, r.heads[j], g.bins[j]);
      forall b | b in g.bins[j] ensures b in g.kind && (j != k || full ==> b != a) { assert g.kind[b] == Slab(j); }
      if j != k || full {
        OtherListKept(g, a, p, m, m', r.heads[j], g.bins[j]);
        if j == k { assert ([a] + g.bins[k])[1..] == g.bins[k]; }
      } else {
        forall b | b in g.bins[k] ensures Rd(m', b) == Rd(m, b) {
          if b != a { HeaderWordsKept(g, a, p, m, m', b); }
        }
        ChainKept(m, m', r.heads[k], g.bins[k]);
      }
    }
  }

  // ----- Big blocks -----

  // A fresh big block at the top, linked behind the newest one.
  lemma NewBigRepresented(m: Memory, m': Memory, r: Roots, g: State, pages: nat)
    requires Inv(g) && Represents(m, r, g) && pages > 0 && g.top + pages * 0x1000 < WORD_LIMIT
    requires forall x :: x < g.top && x != r.newest ==> Rd(m', x) == Rd(m, x)
    requires r.newest != 0 ==> Rd(m', r.newest) == g.top
    requires Rd(m', g.top) == 0 && Rd(m', g.top + 4) == 0 && Rd(m', g.top + 16) == r.newest
    requires Rd(m', g.top + 8) == BigCapacity(pages) && Rd(m', g.top + 12) == BIN_MAGIC
    ensures Represents(m', r.(newest := g.top), GrowBig(g, pages))
  {
    var g', r' := GrowBig(g, pages), r.(newest := g.top);
    NotPastTop(g);
    forall c ensures Fits(c, m', r', g') {
      assert Fits(c, m, r, g);
      match c {
        case Headers => NewBigHeaders(m, m', r, g, pages);
        case Stacks =>
          forall b | b in g.stacks ensures Chain(m', Rd(m', b + 4), g.stacks[b]) {
            NewBigKeepsStack(m, m', r, g, b);
          }
        case Lists =>
          forall k | 0 <= k < |g.bins| ensures Chain(m', r.heads[k], g.bins[k]) {
            NewBigKeepsList(m, m', r, g, k);
          }
        case BigHeads => NewBigHeads(m, m', r, g, pages);
        case Neighbours =>
          BigBlocksGrown(g, Big(pages));
          NewBigNeighbours(m, m', r, g, pages);
      }
    }
  }

  lemma NewBigHeaders(m: Memory, m': Memory, r: Roots, g: State, pages: nat)
    requires Inv(g) && Represents(m, r, g)
    requires forall x :: x < g.top && x != r.newest ==> Rd(m', x) == Rd(m, x)
    requires Rd(m', g.top + 8) == BigCapacity(pages) && Rd(m', g.top + 12) == BIN_MAGIC
    ensures Fits(Headers, m', r.(newest := g.top), GrowBig(g, pages))
  {
    assert Fits(Headers, m, r, g);
    forall b | b in g.kind ensures Rd(m', b + 8) == Rd(m, b + 8) && Rd(m', b + 12) == Rd(m, b + 12) {
      NewBigKeeps(m, m', r, g, b);
    }
  }

  lemma NewBigHeads(m: Memory, m': Memory, r: Roots, g: State, pages: nat)
    requires Inv(g) && Represents(m, r, g)
    requires forall x :: x < g.top && x != r.newest ==> Rd(m', x) == Rd(m, x)
    requires Rd(m', g.top + 4) == 0
    ensures Fits(BigHeads, m', r.(newest := g.top), GrowBig(g, pages))
  {
    NotPastTop(g);
    assert Fits(BigHeads, m, r, g) && Holds(Bigs, g);
    forall b | b in g.user
      ensures Rd(m', b + 4) == Rd(m, b + 4) && Rd(m', b + BIG_HEADER) == Rd(m, b + BIG_HEADER)
    {
      NewBigKeeps(m, m', r, g, b);
    }
  }

  lemma NewestIsBig(m: Memory, r: Roots, g: State)
    requires Inv(g) && Represents(m, r, g) && r.newest != 0
    ensures r.newest in g.kind && g.kind[r.newest].Big? && r.newest in g.user
    ensures BigBlocks(g.order, g.kind) != []
  {
    assert Fits(Neighbours, m, r, g);
    ListedBig(g, r.newest);
  }

  lemma NewBigKeeps(m: Memory, m': Memory, r: Roots, g: State, b: int)
    requires Inv(g) && Represents(m, r, g) && b in g.kind
    requires forall x :: x < g.top && x != r.newest ==> Rd(m', x) == Rd(m, x)
    ensures Rd(m', b + 4) == Rd(m, b + 4) && Rd(m', b + 8) == Rd(m, b + 8) && Rd(m', b + 12) == Rd(m, b + 12)
    ensures Rd(m', b + 16) == Rd(m, b + 16) && Rd(m', b + BIG_HEADER) == Rd(m, b + BIG_HEADER)
    ensures b != r.newest ==> Rd(m', b) == Rd(m, b)
  {
    BlockBounds(g, b);
    if r.newest != 0 {
      NewestIsBig(m, r, g);
      BlockBounds(g, r.newest);
      BlocksApart(g, b, r.newest);
    }
  }

  lemma NewBigKeepsStack(m: Memory, m': Memory, r: Roots, g: State, b: int)
    requires Inv(g) && Represents(m, r, g) && b in g.stacks
    requires forall x :: x < g.top && x != r.newest ==> Rd(m', x) == Rd(m, x)
    ensures Chain(m', Rd(m', b + 4), g.stacks[b])
  {
    assert Fits(Stacks, m, r, g) && Holds(Slabs, g);
    NewBigKeeps(m, m', r, g, b);
    BlockBounds(g, b);
    if r.newest != 0 {
      NewestIsBig(m, r, g);
      BlockBounds(g, r.newest);
      BlocksApart(g, b, r.newest);
    }
    forall x | x in g.stacks[b] ensures Rd(m', x) == Rd(m, x) {
      CellBounds(b, g.kind[b].bucket, x);
    }
    ChainKept(m, m', Rd(m, b + 4), g.stacks[b]);
  }

  lemma NewBigKeepsList(m: Memory, m': Memory, r: Roots, g: State, k: nat)
    requires Inv(g) && Represents(m, r, g) && k < |g.bins| == |r.heads|
    requires forall x :: x < g.top && x != r.newest ==> Rd(m', x) == Rd(m, x)
    ensures Chain(m', r.heads[k], g.bins[k])
  {
    assert Fits(Lists, m, r, g) && Holds(Bins, g);
    if r.newest != 0 { NewestIsBig(m, r, g); }
    forall b | b in g.bins[k] ensures Rd(m', b) == Rd(m, b) {
      assert b in g.kind && g.kind[b] == Slab(k);
      BlockBounds(g, b);
      NewBigKeeps(m, m', r, g, b);
    }
    ChainKept(m, m', r.heads[k], g.bins[k]);
  }

  lemma NotNewest(m: Memory, r: Roots, g: State, i: nat)
    requires Inv(g) && Represents(m, r, g) && i < |BigBlocks(g.order, g.kind)| - 1
    ensures BigBlocks(g.order, g.kind)[i] != r.newest
  {
    assert Fits(Neighbours, m, r, g);
    var s := BigBlocks(g.order, g.kind);
    assert s[i + 1] in s;
    ListedBig(g, s[i + 1]);
    BlockBounds(g, s[i + 1]);
    assert Rd(m, s[i]) == NextOf(s, i) && Rd(m, s[|s| - 1]) == NextOf(s, |s| - 1);
  }

  lemma NewBigNeighbours(m: Memory, m': Memory, r: Roots, g: State, pages: nat)
    requires Inv(g) && Represents(m, r, g) && pages > 0
    requires forall x :: x < g.top && x != r.newest ==> Rd(m', x) == Rd(m, x)
    requires r.newest != 0 ==> Rd(m', r.newest) == g.top
    requires Rd(m', g.top) == 0 && Rd(m', g.top + 16) == r.newest
    ensures Physical(m', g.top, BigBlocks(g.order, g.kind) + [g.top])
  {
    var s := BigBlocks(g.order, g.kind);
    forall i | 0 <= i < |s| ensures LinkedTo(m', s, i, g.top) {
      OldNeighbours(m, m', r, g, i);
    }
    assert r.newest == (if s == [] then 0 else s[|s| - 1]) by { assert Fits(Neighbours, m, r, g); }
    PhysicalExtended(m', r.newest, s, g.top);
  }

  // Element i of s is linked both ways, the last one on to `after`.
  ghost predicate LinkedTo(m: Memory, s: seq<int>, i: nat, after: int)
    requires i < |s|
  {
    Rd(m, s[i] + 16) == PrevOf(s, i) && Rd(m, s[i]) == if i == |s| - 1 then after else s[i + 1]
  }

  lemma PhysicalExtended(m: Memory, newest: int, s: seq<int>, a: int)
    requires newest == if s == [] then 0 else s[|s| - 1]
    requires forall i :: 0 <= i < |s| ==> LinkedTo(m, s, i, a)
    requires Rd(m, a) == 0 && Rd(m, a + 16) == newest
    ensures Physical(m, a, s + [a])
  {
    var s' := s + [a];
    forall i | 0 <= i < |s'| ensures Rd(m, s'[i] + 16) == PrevOf(s', i) && Rd(m, s'[i]) == NextOf(s', i) {
      if i < |s| { assert LinkedTo(m, s, i, a); }
    }
  }

  lemma OldNeighbours(m: Memory, m': Memory, r: Roots, g: State, i: nat)
    requires Inv(g) && Represents(m, r, g) && i < |BigBlocks(g.order, g.kind)|
    requires forall x :: x < g.top && x != r.newest ==> Rd(m', x) == Rd(m, x)
    requires r.newest != 0 ==> Rd(m', r.newest) == g.top
    ensures LinkedTo(m', BigBlocks(g.order, g.kind), i, g.top)
  {
    var s := BigBlocks(g.order, g.kind);
    assert Fits(Neighbours, m, r, g);
    assert Rd(m, s[i] + 16) == PrevOf(s, i) && Rd(m, s[i]) == NextOf(s, i);
    assert s[i] in s;
    ListedBig(g, s[i]);
    BlockBounds(g, s[i]);
    NewBigKeeps(m, m', r, g, s[i]);
    if i < |s| - 1 { NotNewest(m, r, g, i); }
  }

  // Only the head word of big block a and the first word behind its header
  // have changed.
  ghost predicate HeadWrites(m: Memory, m': Memory, a: int) {
    forall x :: x != a + 4 && x != a + BIG_HEADER ==> Rd(m', x) == Rd(m, x)
  }

  lemma BigWritesKeep(g: State, a: int, m: Memory, m': Memory, r: Roots, c: Piece)
    requires Inv(g) && a in g.kind && g.kind[a].Big? && HeadWrites(m, m', a)
    requires Fits(c, m, r, g) && c != BigHeads
    ensures Fits(c, m', r, g)
  {
    BlockBounds(g, a);
    var q := a + BIG_HEADER;
    match c {
      case Headers =>
        forall b | b in g.kind ensures Rd(m', b + 8) == Rd(m, b + 8) && Rd(m', b + 12) == Rd(m, b + 12) {
          HeaderWordsKept(g, a, q, m, m', b);
        }
      case Stacks =>
        assert Holds(Slabs, g);
        forall b | b in g.stacks ensures Chain(m', Rd(m', b + 4), g.stacks[b]) {
          HeaderWordsKept(g, a, q, m, m', b);
          OtherStackKept(g, a, q, m, m', b);
        }
      case Lists =>
        assert Holds(Bins, g);
        forall k | 0 <= k < |g.bins| ensures Chain(m', r.heads[k], g.bins[k]) {
          forall b | b in g.bins[k] ensures b in g.kind && b != a { assert g.kind[b] == Slab(k); }
          OtherListKept(g, a, q, m, m', r.heads[k], g.bins[k]);
        }
      case Neighbours =>
        forall b | b in BigBlocks(g.order, g.kind)
          ensures Rd(m', b) == Rd(m, b) && Rd(m', b + 16) == Rd(m, b + 16)
        {
          ListedBig(g, b);
          BlockBounds(g, b);
          BlocksApart(g, a, b);
        }
        PhysicalKept(m, m', r.newest, BigBlocks(g.order, g.kind));
      case _ =>
    }
  }

  lemma OtherHeadsKept(g: State, a: int, m: Memory, m': Memory, r: Roots)
    requires Inv(g) && a in g.kind && g.kind[a].Big? && HeadWrites(m, m', a)
    ensures forall b :: b in g.user && b != a ==>
              Rd(m', b + 4) == Rd(m, b + 4) && Rd(m', b + BIG_HEADER) == Rd(m, b + BIG_HEADER)
  {
    assert Holds(Bigs, g);
    BlockBounds(g, a);
    forall b | b in g.user && b != a
      ensures Rd(m', b + 4) == Rd(m, b + 4) && Rd(m', b + BIG_HEADER) == Rd(m, b + BIG_HEADER)
    {
      HeaderWordsKept(g, a, a + BIG_HEADER, m, m', b);
    }
  }

  // Popping the one cell of a free big block.
  lemma TakeBigRepresented(m: Memory, r: Roots, g: State, j: nat)
    requires Inv(g) && Represents(m, r, g) && j < |g.free|
    ensures Rd(m, g.free[j].addr + 4) == g.free[j].addr + BIG_HEADER
    ensures Represents(m[g.free[j].addr + 4 := Rd(m, g.free[j].addr + BIG_HEADER)], r, TakeBig(g, j))
  {
    FreeBlock(g, j);
    var a := g.free[j].addr;
    BlockBounds(g, a);
    var m' := m[a + 4 := Rd(m, a + BIG_HEADER)];
    assert Fits(BigHeads, m, r, g);
    forall c ensures Fits(c, m', r, TakeBig(g, j)) {
      assert Fits(c, m, r, g);
      if c == BigHeads {
        OtherHeadsKept(g, a, m, m', r);
      } else {
        BigWritesKeep(g, a, m, m', r, c);
      }
    }
  }

  // Pushing a big block's space back.
  lemma GiveBigRepresented(m: Memory, r: Roots, g: State, p: int, height: nat)
    requires Inv(g) && Represents(m, r, g) && p in g.live && g.live[p] in g.kind && g.kind[g.live[p]].Big?
    requires 0 <= g.live[p] < WORD_LIMIT - BIG_HEADER
    ensures var a := g.live[p];
            Represents(m[a + BIG_HEADER := Rd(m, a + 4)][a + 4 := a + BIG_HEADER], r, GiveBig(g, p, height))
  {
    var a := g.live[p];
    LiveBig(g, p);
    var m' := m[a + BIG_HEADER := Rd(m, a + 4)][a + 4 := a + BIG_HEADER];
    forall c ensures Fits(c, m', r, GiveBig(g, p, height)) {
      assert Fits(c, m, r, g);
      if c == BigHeads {
        assert Rd(m, a + 4) == 0;
        OtherHeadsKept(g, a, m, m', r);
      } else {
        BigWritesKeep(g, a, m, m', r, c);
      }
    }
  }

  lemma RealignRepresented(m: Memory, r: Roots, g: State, p: int)
    requires Inv(g) && Represents(m, r, g) && p in g.live && g.live[p] in g.kind && g.kind[g.live[p]].Big?
    ensures Represents(m, r, Realign(g, p))
  {
    LiveBig(g, p);
    LiveInside(g, p);
    BlockBounds(g, g.live[p]);
    forall c ensures Fits(c, m, r, Realign(g, p)) {
      assert Fits(c, m, r, g);
    }
  }
}
