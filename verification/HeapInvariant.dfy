// Every operation on the allocator state keeps its invariant.
module HeapInvariant {
  import opened SizeClasses
  import opened SkipLists
  import opened HeapState

  // ----- Cells of a slab -----

  lemma Products(i: nat, n: nat, s: nat)
    requires i < n
    ensures i * s + s <= n * s
  {
    assert n * s == i * s + (n - i) * s;
    assert (n - i) * s >= s by { assert (n - i) * s == s + (n - i - 1) * s; }
  }

  lemma WordMultiple(j: int, s: int)
    requires s % 4 == 0
    ensures j * s % 4 == 0
  {
    assert j * s == 4 * (j * (s / 4)) by { assert s == 4 * (s / 4); }
  }

  lemma PageIsWord(a: int, d: int)
    requires a % 0x1000 == 0 && d % 4 == 0
    ensures (a + d) % 4 == 0
  {
  }

  lemma PagesAreWords(a: int, n: int, p: int)
    requires a % 0x1000 == 0 && p % 4 == 0
    ensures (a + n * 0x1000 - p) % 4 == 0
  {
    var q, r := a / 0x1000, p / 4;
    assert a + n * 0x1000 - p == 4 * (0x400 * q + 0x400 * n - r);
  }

  lemma CellBounds(a: int, k: nat, c: int)
    requires IsCell(a, k, c) && k < BIG_BIN
    ensures a + SMALL_HEADER <= c && c + CellSize(k) <= a + PAGE && CellSize(k) >= 4
  {
    var j :| 0 <= j < CellCount(k) && c == CellAddr(a, k, j);
    CellCountBounds(k);
    CellSizeRange(k);
    Products(j, CellCount(k), CellSize(k));
  }

  lemma CellAligned(a: int, k: nat, c: int)
    requires IsCell(a, k, c) && k < BIG_BIN && a % 0x1000 == 0
    ensures CellSize(k) % 4 == 0 && c % 4 == 0
  {
    var j :| 0 <= j < CellCount(k) && c == CellAddr(a, k, j);
    CellSizeRange(k);
    var d := j * CellSize(k);
    assert d % 4 == 0 by { WordMultiple(j, CellSize(k)); }
    PageIsWord(a, SMALL_HEADER + d);
  }

  lemma CellsApart(a: int, k: nat, c: int, d: int)
    requires IsCell(a, k, c) && IsCell(a, k, d)
    ensures c == d || c + CellSize(k) <= d || d + CellSize(k) <= c
  {
    var i :| 0 <= i < CellCount(k) && c == CellAddr(a, k, i);
    var j :| 0 <= j < CellCount(k) && d == CellAddr(a, k, j);
    if i < j { Products(i, j, CellSize(k)); }
    if j < i { Products(j, i, CellSize(k)); }
  }

  lemma {:induction false} CellsFromAt(a: int, k: nat, j: nat)
    requires j <= CellCount(k)
    ensures |CellsFrom(a, k, j)| == CellCount(k) - j
    ensures forall i :: 0 <= i < CellCount(k) - j ==> CellsFrom(a, k, j)[i] == CellAddr(a, k, j + i)
    decreases CellCount(k) - j
  {
    if j < CellCount(k) { CellsFromAt(a, k, j + 1); }
  }

  lemma FreshCells(a: int, k: nat)
    ensures Distinct(CellsFrom(a, k, 0)) && |CellsFrom(a, k, 0)| == CellCount(k)
    ensures forall c :: c in CellsFrom(a, k, 0) <==> IsCell(a, k, c)
  {
    var s := CellsFrom(a, k, 0);
    CellsFromAt(a, k, 0);
    forall i, j | 0 <= i < j < |s| ensures s[i] != s[j] {
      Products(i, j, CellSize(k));
    }
    forall c ensures c in s <==> IsCell(a, k, c) {
      if IsCell(a, k, c) {
        var j :| 0 <= j < CellCount(k) && c == CellAddr(a, k, j);
        assert s[j] == c;
      }
    }
  }

  // A live pointer lies in its own block, behind the header. Only a valloc
  // pointer into a one-page block, with no room behind it, is at the very end.
  lemma LiveInside(g: State, p: int)
    requires Inv(g) && p in g.live
    ensures g.live[p] in g.kind && p != 0
    ensures g.live[p] + HeaderLen(g.kind[g.live[p]]) <= p <= g.live[p] + Len(g.kind[g.live[p]])
    ensures p < g.live[p] + PAGE || (p == g.live[p] + PAGE && g.kind[g.live[p]].Big?)
  {
    assert Holds(Lives, g);
    var a := g.live[p];
    BlockBounds(g, a);
    match g.kind[a] {
      case Slab(k) => assert Holds(Shape, g); CellBounds(a, k, p);
      case Big(_) => assert Holds(Bigs, g);
    }
  }

  lemma BlockBounds(g: State, a: int)
    requires Inv(g) && a in g.kind
    ensures KindOk(g.kind[a]) && a % 0x1000 == 0 && 0 < g.start <= a && a + Len(g.kind[a]) <= g.top < WORD_LIMIT
  {
    assert Holds(Shape, g);
  }

  lemma BlocksApart(g: State, a: int, b: int)
    requires Inv(g) && a in g.kind && b in g.kind
    ensures a == b || a + Len(g.kind[a]) <= b || b + Len(g.kind[b]) <= a
  {
    assert Holds(Shape, g);
  }

  lemma LiveAligned(g: State, p: int)
    requires Inv(g) && p in g.live
    ensures g.live[p] in g.kind && p % 4 == 0 && Capacity(g, p) % 4 == 0
  {
    LiveInside(g, p);
    var a := g.live[p];
    BlockBounds(g, a);
    assert Holds(Lives, g);
    match g.kind[a] {
      case Slab(k) => CellAligned(a, k, p);
      case Big(n) =>
        assert Holds(Bigs, g);
        PageIsWord(a, p - a);
        PagesAreWords(a, n, p);
    }
  }

  // ----- Growing -----

  lemma GrowLayout(start: int, top: int, kind: map<int, Kind>, k: Kind)
    requires Layout(start, top, kind) && KindOk(k) && top + Len(k) < WORD_LIMIT
    ensures Layout(start, top + Len(k), kind[top := k]) && top !in kind
  {
    assert Len(k) % 0x1000 == 0;
  }

  lemma GrowTiled(start: int, top: int, order: seq<int>, kind: map<int, Kind>, k: Kind)
    requires Tiled(start, top, order, kind) && top !in kind
    ensures Tiled(start, top + Len(k), order + [top], kind[top := k])
  {
    var order', kind' := order + [top], kind[top := k];
    forall i | 0 <= i < |order'| ensures order'[i] in kind' && order'[i] == Boundary(start, order', kind', i) {
      GrowBoundary(start, top, order, kind, k, i);
    }
    assert order'[|order|] == top;
    forall a | a in kind' ensures a in order' { assert a == top || a in order; }
  }

  lemma GrowBoundary(start: int, top: int, order: seq<int>, kind: map<int, Kind>, k: Kind, i: nat)
    requires Tiled(start, top, order, kind) && top !in kind && i <= |order|
    ensures (order + [top])[i] in kind[top := k]
    ensures i > 0 ==> (order + [top])[i - 1] in kind[top := k]
    ensures (order + [top])[i] == Boundary(start, order + [top], kind[top := k], i)
  {
    if i > 0 { assert order[i - 1] in kind; }
    assert i < |order| ==> order[i] == Boundary(start, order, kind, i);
    assert Boundary(start, order + [top], kind[top := k], i) == Boundary(start, order, kind, i);
  }

  lemma NotPastTop(g: State)
    requires Inv(g)
    ensures g.top !in g.kind && g.top > 0 && g.top % 0x1000 == 0
  {
    assert Holds(Shape, g);
  }

  lemma NotLivePastTop(g: State, p: int)
    requires Inv(g) && p > g.top
    ensures p !in g.live
  {
    if p in g.live { LiveInside(g, p); BlockBounds(g, g.live[p]); }
  }

  lemma GrowSlabSlabs(g: State, k: nat)
    requires Inv(g) && k < BIG_BIN && |g.bins| == BIG_BIN
    ensures Holds(Slabs, GrowSlab(g, k))
  {
    var a := g.top;
    NotPastTop(g);
    FreshCells(a, k);
    forall c | IsCell(a, k, c) ensures c !in g.live {
      CellBounds(a, k, c);
      NotLivePastTop(g, c);
    }
    assert Holds(Slabs, g);
  }

  lemma GrowSlabBins(g: State, k: nat)
    requires Inv(g) && k < BIG_BIN
    ensures |g.bins| == BIG_BIN && Holds(Bins, GrowSlab(g, k))
  {
    NotPastTop(g);
    FreshCells(g.top, k);
    CellCountBounds(k);
    assert Holds(Bins, g);
    assert g.top !in g.bins[k];
  }

  lemma GrowSlabInv(g: State, k: nat)
    requires Inv(g) && k < BIG_BIN && g.top + PAGE < WORD_LIMIT
    ensures |g.bins| == BIG_BIN && Inv(GrowSlab(g, k))
  {
    GrowSlabBins(g, k);
    NotPastTop(g);
    forall c ensures Holds(c, GrowSlab(g, k)) {
      assert Holds(c, g);
      match c {
        case Shape => GrowLayout(g.start, g.top, g.kind, Slab(k));
        case Tiles => GrowTiled(g.start, g.top, g.order, g.kind, Slab(k));
        case Slabs => GrowSlabSlabs(g, k);
        case Bins =>
        case Frees =>
        case Bigs =>
        case Lives =>
      }
    }
  }

  // An address past the end of the heap, or in a big block, is no cell.
  lemma NotACell(g: State, p: int, b: int, c: int)
    requires Inv(g) && b in g.kind && g.kind[b].Slab? && IsCell(b, g.kind[b].bucket, c)
    requires p > g.top || exists a :: a in g.kind && g.kind[a].Big? && a <= p <= a + Len(g.kind[a])
    ensures c != p
  {
    BlockBounds(g, b);
    CellBounds(b, g.kind[b].bucket, c);
    if p <= g.top {
      var a :| a in g.kind && g.kind[a].Big? && a <= p <= a + Len(g.kind[a]);
      BlocksApart(g, a, b);
    }
  }

  lemma GrowBigSlabs(g: State, pages: nat)
    requires Inv(g)
    ensures Holds(Slabs, GrowBig(g, pages))
  {
    NotPastTop(g);
    assert Holds(Slabs, g);
    forall b, c | b in g.stacks && IsCell(b, g.kind[b].bucket, c) ensures c != g.top + BIG_HEADER {
      NotACell(g, g.top + BIG_HEADER, b, c);
    }
  }

  // The blocks in use, the clients' pointers and the free list after growing.
  lemma GrowBigClients(g: State, pages: nat)
    requires Inv(g) && g.top !in g.kind && g.top + BIG_HEADER !in g.live && g.top > 0
    ensures Holds(Bigs, GrowBig(g, pages)) && Holds(Lives, GrowBig(g, pages))
  {
    assert Holds(Bigs, g) && Holds(Lives, g);
  }

  lemma GrowBigFrees(g: State, pages: nat)
    requires Inv(g) && g.top !in g.kind && g.top > 0
    ensures Holds(Frees, GrowBig(g, pages))
  {
    assert Holds(Frees, g) && Holds(Bigs, g);
  }

  lemma GrowBigInv(g: State, pages: nat)
    requires Inv(g) && pages > 0 && g.top + pages * 0x1000 < WORD_LIMIT
    ensures Inv(GrowBig(g, pages))
    ensures g.top !in g.kind && g.top + BIG_HEADER !in g.live
  {
    NotPastTop(g);
    NotLivePastTop(g, g.top + BIG_HEADER);
    assert g.top > 0 by { assert Holds(Shape, g); }
    forall c ensures Holds(c, GrowBig(g, pages)) {
      match c {
        case Shape =>
          assert Holds(c, g);
          GrowLayout(g.start, g.top, g.kind, Big(pages));
        case Tiles =>
          assert Holds(c, g) && Holds(Shape, g);
          GrowTiled(g.start, g.top, g.order, g.kind, Big(pages));
        case Slabs => GrowBigSlabs(g, pages);
        case Bins => assert Holds(c, g);
        case Frees => GrowBigFrees(g, pages);
        case Bigs => GrowBigClients(g, pages);
        case Lives => GrowBigClients(g, pages);
      }
    }
  }

  // ----- Handing out and taking back cells -----

  // A cell belongs to one slab only.
  lemma CellHasOneSlab(g: State, a: int, b: int, c: int)
    requires Inv(g) && a in g.kind && b in g.kind && g.kind[a].Slab? && g.kind[b].Slab?
    requires IsCell(a, g.kind[a].bucket, c) && IsCell(b, g.kind[b].bucket, c)
    ensures a == b
  {
    BlockBounds(g, a);
    BlockBounds(g, b);
    CellBounds(a, g.kind[a].bucket, c);
    CellBounds(b, g.kind[b].bucket, c);
    BlocksApart(g, a, b);
  }

  lemma TakeCellSlabs(kind: map<int, Kind>, stacks: map<int, seq<int>>, live: map<int, int>, a: int)
    requires SlabsOk(kind, stacks, live) && a in stacks && stacks[a] != []
    requires forall b, c :: b in stacks && IsCell(b, kind[b].bucket, c) && c == stacks[a][0] ==> b == a
    ensures SlabsOk(kind, stacks[a := stacks[a][1..]], live[stacks[a][0] := a])
  {
    var s, stacks', live' := stacks[a], stacks[a := stacks[a][1..]], live[stacks[a][0] := a];
    assert forall c :: c in s <==> c == s[0] || c in s[1..];
    forall b, c | b in stacks' && IsCell(b, kind[b].bucket, c)
      ensures c in stacks'[b] <==> c !in live'
    {
      if b == a && c == s[0] { assert c !in s[1..]; }
    }
  }

  lemma TakeCellBins(kind: map<int, Kind>, stacks: map<int, seq<int>>, bins: seq<seq<int>>, k: nat)
    requires BinsOk(kind, stacks, bins) && k < BIG_BIN && bins[k] != []
    ensures bins[k][0] in stacks && stacks[bins[k][0]] != []
    ensures var a := bins[k][0];
            BinsOk(kind, stacks[a := stacks[a][1..]], if |stacks[a]| == 1 then bins[k := bins[k][1..]] else bins)
  {
    var a := bins[k][0];
    assert a in bins[k];
    var stacks' := stacks[a := stacks[a][1..]];
    var bins' := if |stacks[a]| == 1 then bins[k := bins[k][1..]] else bins;
    assert forall b :: b in bins[k] <==> b == a || b in bins[k][1..];
    assert a !in bins[k][1..];
  }

  // The slab at the front of a bin, and its first free cell.
  lemma FirstCell(g: State, k: nat)
    requires Inv(g) && k < BIG_BIN && |g.bins| == BIG_BIN && g.bins[k] != []
    ensures g.bins[k][0] in g.kind && g.kind[g.bins[k][0]] == Slab(k)
    ensures g.bins[k][0] in g.stacks && g.stacks[g.bins[k][0]] != []
    ensures var p := g.stacks[g.bins[k][0]][0]; IsCell(g.bins[k][0], k, p) && p !in g.live && p > 0
  {
    assert Holds(Bins, g);
    var a := g.bins[k][0];
    assert a in g.bins[k];
    assert Holds(Slabs, g);
    assert g.stacks[a][0] in g.stacks[a];
    BlockBounds(g, a);
    CellBounds(a, k, g.stacks[a][0]);
  }

  lemma BinCount(g: State)
    requires Inv(g)
    ensures |g.bins| == BIG_BIN
  {
    assert Holds(Bins, g);
  }

  lemma TakeCellInv(g: State, k: nat)
    requires Inv(g) && k < BIG_BIN && |g.bins| == BIG_BIN && g.bins[k] != []
    ensures g.bins[k][0] in g.stacks && g.stacks[g.bins[k][0]] != []
    ensures Inv(TakeCell(g, k))
  {
    FirstCell(g, k);
    forall c ensures Holds(c, TakeCell(g, k)) {
      assert Holds(c, g);
      match c {
        case Shape =>
        case Tiles =>
        case Slabs => TakeCellSlabsOf(g, k);
        case Bins => TakeCellBins(g.kind, g.stacks, g.bins, k);
        case Frees =>
        case Bigs =>
        case Lives =>
      }
    }
  }

  lemma TakeCellSlabsOf(g: State, k: nat)
    requires Inv(g) && k < BIG_BIN && |g.bins| == BIG_BIN && g.bins[k] != []
    requires g.bins[k][0] in g.stacks && g.stacks[g.bins[k][0]] != []
    ensures Holds(Slabs, TakeCell(g, k))
  {
    FirstCell(g, k);
    assert Holds(Slabs, g);
    var a := g.bins[k][0];
    forall b, c | b in g.stacks && IsCell(b, g.kind[b].bucket, c) && c == g.stacks[a][0] ensures b == a {
      CellHasOneSlab(g, a, b, c);
    }
    TakeCellSlabs(g.kind, g.stacks, g.live, a);
  }

  lemma GiveCellSlabs(kind: map<int, Kind>, stacks: map<int, seq<int>>, live: map<int, int>, p: int, a: int)
    requires SlabsOk(kind, stacks, live) && a in stacks && p in live && IsCell(a, kind[a].bucket, p)
    requires forall b, c :: b in stacks && IsCell(b, kind[b].bucket, c) && c == p ==> b == a
    ensures SlabsOk(kind, stacks[a := [p] + stacks[a]], live - {p})
  {
    var s, stacks', live' := stacks[a], stacks[a := [p] + stacks[a]], live - {p};
    assert p !in s;
    assert forall c :: c in [p] + s <==> c == p || c in s;
    forall b, c | b in stacks' && IsCell(b, kind[b].bucket, c)
      ensures c in stacks'[b] <==> c !in live'
    {
    }
  }

  lemma GiveCellBins(kind: map<int, Kind>, stacks: map<int, seq<int>>, bins: seq<seq<int>>, p: int, a: int)
    requires BinsOk(kind, stacks, bins) && a in stacks && a in kind && kind[a].Slab? && kind[a].bucket < BIG_BIN
    ensures var k := kind[a].bucket;
            BinsOk(kind, stacks[a := [p] + stacks[a]], if stacks[a] == [] then bins[k := [a] + bins[k]] else bins)
  {
    var k := kind[a].bucket;
    assert forall b :: b in [a] + bins[k] <==> b == a || b in bins[k];
  }

  // A pointer into a slab is one of its cells.
  lemma LiveCell(g: State, p: int)
    requires Inv(g) && p in g.live && g.live[p] in g.kind && g.kind[g.live[p]].Slab?
    ensures g.live[p] in g.stacks && |g.bins| == BIG_BIN && g.kind[g.live[p]].bucket < BIG_BIN
    ensures IsCell(g.live[p], g.kind[g.live[p]].bucket, p)
  {
    assert Holds(Lives, g);
    assert Holds(Slabs, g);
    BinCount(g);
    BlockBounds(g, g.live[p]);
  }

  lemma GiveCellInv(g: State, p: int)
    requires Inv(g) && p in g.live && g.live[p] in g.kind && g.kind[g.live[p]].Slab?
    ensures g.live[p] in g.stacks && |g.bins| == BIG_BIN && g.kind[g.live[p]].bucket < BIG_BIN
    ensures Inv(GiveCell(g, p))
  {
    LiveCell(g, p);
    var a := g.live[p];
    forall c ensures Holds(c, GiveCell(g, p)) {
      assert Holds(c, g);
      match c {
        case Shape =>
        case Tiles =>
        case Slabs => GiveCellSlabsOf(g, p);
        case Bins => GiveCellBins(g.kind, g.stacks, g.bins, p, a);
        case Frees =>
        case Bigs => DropCellBigs(g.kind, g.user, g.live, p);
        case Lives =>
      }
    }
  }

  lemma GiveCellSlabsOf(g: State, p: int)
    requires Inv(g) && p in g.live && g.live[p] in g.kind && g.kind[g.live[p]].Slab?
    requires g.live[p] in g.stacks && g.kind[g.live[p]].bucket < |g.bins|
    ensures Holds(Slabs, GiveCell(g, p))
  {
    LiveCell(g, p);
    assert Holds(Slabs, g);
    var a := g.live[p];
    forall b, c | b in g.stacks && IsCell(b, g.kind[b].bucket, c) && c == p ensures b == a {
      CellHasOneSlab(g, a, b, c);
    }
    GiveCellSlabs(g.kind, g.stacks, g.live, p, a);
  }

  lemma DropCellBigs(kind: map<int, Kind>, user: map<int, int>, live: map<int, int>, p: int)
    requires BigsOk(kind, user, live) && p in live && live[p] in kind && kind[live[p]].Slab?
    ensures BigsOk(kind, user, live - {p})
  {
    forall a | a in user && user[a] != 0 ensures user[a] in live - {p} {
      assert live[user[a]] == a;
    }
  }

  // ----- Handing out and taking back big blocks -----

  lemma RemovedListed(free: seq<FreeNode>, j: nat, b: int)
    requires j < |free| && OnList(free, b) && b != free[j].addr
    ensures OnList(Removed(free, j), b)
  {
    var i :| 0 <= i < |free| && free[i].addr == b;
    assert Removed(free, j)[if i < j then i else i - 1].addr == b;
  }

  lemma RemovedFreeOk(kind: map<int, Kind>, free: seq<FreeNode>, user: map<int, int>, j: nat, p: int)
    requires FreeOk(kind, free, user) && j < |free| && p != 0
    ensures FreeOk(kind, Removed(free, j), user[free[j].addr := p])
  {
    var free', a := Removed(free, j), free[j].addr;
    RemovedHeights(free, j);
    forall b | b in user[a := p] && user[a := p][b] == 0 ensures OnList(free', b) {
      assert OnList(free, b);
      RemovedListed(free, j, b);
    }
  }

  lemma InsertedFreeOk(kind: map<int, Kind>, free: seq<FreeNode>, user: map<int, int>, n: FreeNode)
    requires FreeOk(kind, free, user) && n.height <= MAX_LEVEL
    requires n.addr in user && user[n.addr] != 0 && n.addr in kind && kind[n.addr].Big?
    requires n.size == BigCapacity(kind[n.addr].pages)
    ensures FreeOk(kind, Inserted(free, n), user[n.addr := 0])
  {
    InsertedSorted(free, n);
    InsertedNodes(kind, free, user, LowerBound(free, n.size), n);
    InsertedListed(kind, free, user, LowerBound(free, n.size), n);
  }

  lemma InsertedNodes(kind: map<int, Kind>, free: seq<FreeNode>, user: map<int, int>, k: nat, n: FreeNode)
    requires FreeOk(kind, free, user) && k <= |free| && n.addr in user && user[n.addr] != 0
    requires n.addr in kind && kind[n.addr].Big? && n.size == BigCapacity(kind[n.addr].pages)
    ensures forall i, j :: 0 <= i < j < |free| + 1 ==>
              InsertAt(free, k, n)[i].addr != InsertAt(free, k, n)[j].addr
    ensures forall j :: 0 <= j < |free| + 1 ==>
              var a := InsertAt(free, k, n)[j].addr;
              && a in user && user[n.addr := 0][a] == 0 && a in kind && kind[a].Big?
              && InsertAt(free, k, n)[j].size == BigCapacity(kind[a].pages)
  {
    assert forall j :: 0 <= j < |free| ==> free[j].addr != n.addr;
  }

  lemma InsertedListed(kind: map<int, Kind>, free: seq<FreeNode>, user: map<int, int>, k: nat, n: FreeNode)
    requires k <= |free| && forall a {:trigger OnList(free, a)} :: a in user && user[a] == 0 ==> OnList(free, a)
    ensures forall a {:trigger OnList(InsertAt(free, k, n), a)} ::
              a in user[n.addr := 0] && user[n.addr := 0][a] == 0 ==> OnList(InsertAt(free, k, n), a)
  {
    var free', user' := InsertAt(free, k, n), user[n.addr := 0];
    forall a | a in user' && user'[a] == 0 ensures OnList(free', a) {
      if a == n.addr {
        assert free'[k].addr == a;
      } else {
        assert OnList(free, a);
        var i :| 0 <= i < |free| && free[i].addr == a;
        assert free'[if i < k then i else i + 1].addr == a;
      }
    }
  }

  // The only pointer into a big block is the one recorded for it.
  lemma BigPointerFresh(g: State, a: int, p: int)
    requires Inv(g) && a in g.kind && g.kind[a].Big? && a < p <= a + Len(g.kind[a])
    requires a in g.user && g.user[a] != p
    ensures p !in g.live
  {
    assert Holds(Lives, g);
    if p in g.live {
      LiveInside(g, p);
      BlockBounds(g, g.live[p]);
      BlocksApart(g, a, g.live[p]);
    }
  }

  lemma BigSlabsKept(g: State, a: int, live': map<int, int>)
    requires Inv(g) && a in g.kind && g.kind[a].Big?
    requires forall c :: !(a <= c <= a + Len(g.kind[a])) ==> (c in live' <==> c in g.live)
    ensures SlabsOk(g.kind, g.stacks, live')
  {
    assert Holds(Slabs, g);
    forall b, c | b in g.stacks && IsCell(b, g.kind[b].bucket, c) ensures c in live' <==> c in g.live {
      if a <= c <= a + Len(g.kind[a]) { NotACell(g, c, b, c); }
    }
  }

  lemma FreeBlock(g: State, j: nat)
    requires Inv(g) && j < |g.free|
    ensures var a := g.free[j].addr;
            && a in g.kind && g.kind[a].Big? && a in g.user && g.user[a] == 0
            && g.free[j].size == BigCapacity(g.kind[a].pages)
  {
    assert Holds(Frees, g);
  }

  lemma TakeBigInv(g: State, j: nat)
    requires Inv(g) && j < |g.free|
    ensures Inv(TakeBig(g, j))
    ensures g.free[j].addr + BIG_HEADER !in g.live
  {
    FreeBlock(g, j);
    var a := g.free[j].addr;
    BlockBounds(g, a);
    BigPointerFresh(g, a, a + BIG_HEADER);
    forall c ensures Holds(c, TakeBig(g, j)) {
      assert Holds(c, g);
      match c {
        case Shape =>
        case Tiles =>
        case Slabs => BigSlabsKept(g, a, TakeBig(g, j).live);
        case Bins =>
        case Frees => RemovedFreeOk(g.kind, g.free, g.user, j, a + BIG_HEADER);
        case Bigs =>
        case Lives =>
      }
    }
  }

  lemma LiveBig(g: State, p: int)
    requires Inv(g) && p in g.live && g.live[p] in g.kind && g.kind[g.live[p]].Big?
    ensures g.live[p] in g.user && g.user[g.live[p]] == p != 0
    ensures p == g.live[p] + BIG_HEADER || p == g.live[p] + PAGE
  {
    assert Holds(Lives, g);
    assert Holds(Bigs, g);
  }

  lemma GiveBigInv(g: State, p: int, height: nat)
    requires Inv(g) && p in g.live && g.live[p] in g.kind && g.kind[g.live[p]].Big? && height <= MAX_LEVEL
    ensures Inv(GiveBig(g, p, height))
  {
    LiveBig(g, p);
    LiveInside(g, p);
    var a := g.live[p];
    var n := FreeNode(a, BigCapacity(g.kind[a].pages), height);
    forall c ensures Holds(c, GiveBig(g, p, height)) {
      assert Holds(c, g);
      match c {
        case Shape =>
        case Tiles =>
        case Slabs => BigSlabsKept(g, a, g.live - {p});
        case Bins =>
        case Frees => InsertedFreeOk(g.kind, g.free, g.user, n);
        case Bigs =>
        case Lives =>
      }
    }
  }

  lemma RealignInv(g: State, p: int)
    requires Inv(g) && p in g.live && g.live[p] in g.kind
    requires g.kind[g.live[p]].Big? && p == g.live[p] + BIG_HEADER
    ensures Inv(Realign(g, p))
    ensures g.live[p] + PAGE !in g.live
  {
    LiveBig(g, p);
    var a := g.live[p];
    BlockBounds(g, a);
    BigPointerFresh(g, a, a + PAGE);
    forall c ensures Holds(c, Realign(g, p)) {
      assert Holds(c, g);
      match c {
        case Shape =>
        case Tiles =>
        case Slabs => BigSlabsKept(g, a, Realign(g, p).live);
        case Bins =>
        case Frees => RealignedFree(g.kind, g.free, g.user, a);
        case Bigs =>
        case Lives =>
      }
    }
  }

  lemma RealignedFree(kind: map<int, Kind>, free: seq<FreeNode>, user: map<int, int>, a: int)
    requires FreeOk(kind, free, user) && a in user && user[a] != 0 && a > 0
    ensures FreeOk(kind, free, user[a := a + PAGE])
  {
  }

  // Address x is among the bytes the client holding q may use.
  ghost predicate Owns(g: State, q: int, x: int) {
    q in g.live && q <= x < q + Capacity(g, q)
  }

  // The header words of a block are in no client's hands, and neither is
  // anything past the end of the heap.
  lemma ClientWord(g: State, q: int, x: int)
    requires Inv(g) && Owns(g, q, x)
    ensures 0 < g.start
    ensures g.live[q] in g.kind && g.live[q] + HeaderLen(g.kind[g.live[q]]) <= x < g.live[q] + Len(g.kind[g.live[q]])
    ensures g.start <= x < g.top
    ensures forall b :: b in g.kind ==> !(b <= x < b + HeaderLen(g.kind[b]))
  {
    LiveInside(g, q);
    var a := g.live[q];
    BlockBounds(g, a);
    assert g.start > 0;
    if g.kind[a].Slab? {
      LiveCell(g, q);
      CellBounds(a, g.kind[a].bucket, q);
    }
    forall b | b in g.kind ensures !(b <= x < b + HeaderLen(g.kind[b])) {
      BlockBounds(g, b);
      BlocksApart(g, a, b);
    }
  }

  // What clients hold never overlaps.
  lemma LiveApart(g: State, p: int, q: int)
    requires Inv(g) && p in g.live && q in g.live && p != q
    ensures p + Capacity(g, p) <= q || q + Capacity(g, q) <= p
  {
    LiveInside(g, p);
    LiveInside(g, q);
    var a, b := g.live[p], g.live[q];
    BlocksApart(g, a, b);
    if a == b {
      assert Holds(Lives, g);
      if g.kind[a].Slab? { CellsApart(a, g.kind[a].bucket, p, q); }
    } else {
      if g.kind[a].Slab? { LiveCell(g, p); CellBounds(a, g.kind[a].bucket, p); }
      if g.kind[b].Slab? { LiveCell(g, q); CellBounds(b, g.kind[b].bucket, q); }
      BlockBounds(g, a);
      BlockBounds(g, b);
    }
  }
}
