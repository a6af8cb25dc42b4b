// The allocator's state as values: which blocks tile the heap, which cells and
// big blocks are free and in what order, and which pointers clients hold.
// Each operation of the allocator is a function on this state.
module HeapState {
  import opened SizeClasses
  import opened SkipLists

  // A block is a one-page slab of equal cells or a run of pages for one client.
  datatype Kind = Slab(bucket: nat) | Big(pages: nat)

  datatype State = State(
    start: int,                      // initial heap_end
    top: int,                        // current heap_end
    order: seq<int>,                 // block addresses, oldest first
    kind: map<int, Kind>,            // every block by its address
    stacks: map<int, seq<int>>,      // free cells of each slab, top first
    bins: seq<seq<int>>,             // slabs with a free cell, by bin
    free: seq<FreeNode>,             // free big blocks in level-0 order
    user: map<int, int>,             // pointer handed out for each big block, or 0
    live: map<int, int>)             // block of every pointer clients hold

  function Len(k: Kind): nat {
    if k.Slab? then PAGE else k.pages * 0x1000
  }

  function HeaderLen(k: Kind): nat {
    if k.Slab? then SMALL_HEADER else BIG_HEADER
  }

  // The header's size field: a bin index, or the capacity of a big block.
  function SizeField(k: Kind): int {
    if k.Slab? then k.bucket else BigCapacity(k.pages)
  }

  predicate KindOk(k: Kind) {
    if k.Slab? then k.bucket < BIG_BIN else k.pages > 0
  }

  function CellAddr(a: int, k: nat, j: int): int {
    a + SMALL_HEADER + j * CellSize(k)
  }

  ghost predicate IsCell(a: int, k: nat, c: int) {
    exists j :: 0 <= j < CellCount(k) && c == CellAddr(a, k, j)
  }

  function CellsFrom(a: int, k: nat, j: nat): seq<int>
    decreases CellCount(k) - j
  {
    if j >= CellCount(k) then [] else [CellAddr(a, k, j)] + CellsFrom(a, k, j + 1)
  }

  ghost predicate Distinct(s: seq<int>) {
    forall i, j :: 0 <= i < j < |s| ==> s[i] != s[j]
  }

  ghost predicate OnList(free: seq<FreeNode>, a: int) {
    exists j :: 0 <= j < |free| && free[j].addr == a
  }

  // ----- The invariant -----

  // Each part speaks only of the fields it constrains.

  // Blocks are page-aligned and disjoint, inside [start, top).
  ghost predicate Layout(start: int, top: int, kind: map<int, Kind>) {
    && 0 < start <= top < WORD_LIMIT && start % 0x1000 == 0 && top % 0x1000 == 0
    && (forall a :: a in kind ==> KindOk(kind[a]) && a % 0x1000 == 0 && start <= a && a + Len(kind[a]) <= top)
    && (forall a, b {:trigger kind[a], kind[b]} :: a in kind && b in kind && a < b ==> a + Len(kind[a]) <= b)
  }

  // Where block number i must start: at the end of the one before.
  function Boundary(start: int, order: seq<int>, kind: map<int, Kind>, i: nat): int
    requires i <= |order|
    requires i > 0 ==> order[i - 1] in kind
  {
    if i == 0 then start else order[i - 1] + Len(kind[order[i - 1]])
  }

  // The blocks cover [start, top) back to back, in the order they were made.
  ghost predicate Tiled(start: int, top: int, order: seq<int>, kind: map<int, Kind>) {
    && (forall a {:trigger a in order} :: a in kind ==> a in order)
    && (forall i :: 0 <= i < |order| ==> order[i] in kind)
    && (forall i {:trigger Boundary(start, order, kind, i)} ::
          0 <= i < |order| ==> order[i] == Boundary(start, order, kind, i))
    && top == Boundary(start, order, kind, |order|)
  }

  // The free stack of every slab holds exactly its cells that are not live.
  ghost predicate SlabsOk(kind: map<int, Kind>, stacks: map<int, seq<int>>, live: map<int, int>) {
    && (forall a :: a in stacks <==> a in kind && kind[a].Slab?)
    && (forall a :: a in stacks ==> Distinct(stacks[a]))
    && (forall a, c :: a in stacks && c in stacks[a] ==> IsCell(a, kind[a].bucket, c))
    && (forall a, c :: a in stacks && IsCell(a, kind[a].bucket, c) ==> (c in stacks[a] <==> c !in live))
  }

  // A slab is on the list of its bin, once, exactly when it has a free cell.
  ghost predicate BinsOk(kind: map<int, Kind>, stacks: map<int, seq<int>>, bins: seq<seq<int>>) {
    && |bins| == BIG_BIN
    && (forall k :: 0 <= k < BIG_BIN ==> Distinct(bins[k]))
    && (forall k, a :: 0 <= k < BIG_BIN && a in bins[k] ==>
          a in stacks && a in kind && kind[a] == Slab(k) && stacks[a] != [])
    && (forall a :: a in stacks && a in kind && kind[a].Slab? && kind[a].bucket < BIG_BIN && stacks[a] != [] ==>
          a in bins[kind[a].bucket])
  }

  // The free list holds free big blocks only, each once, smallest first.
  ghost predicate FreeOk(kind: map<int, Kind>, free: seq<FreeNode>, user: map<int, int>) {
    && Sorted(free) && Heights(free)
    && (forall i, j :: 0 <= i < j < |free| ==> free[i].addr != free[j].addr)
    && (forall j :: 0 <= j < |free| ==>
          && free[j].addr in user && user[free[j].addr] == 0
          && free[j].addr in kind && kind[free[j].addr].Big?
          && free[j].size == BigCapacity(kind[free[j].addr].pages))
    && (forall a {:trigger OnList(free, a)} :: a in user && user[a] == 0 ==> OnList(free, a))
  }

  // A big block is free or held by one client, just behind its header or, from
  // valloc, at the page boundary that follows.
  ghost predicate BigsOk(kind: map<int, Kind>, user: map<int, int>, live: map<int, int>) {
    && (forall a :: a in user <==> a in kind && kind[a].Big?)
    && (forall a :: a in user && user[a] != 0 ==>
          && (user[a] == a + BIG_HEADER || user[a] == a + PAGE)
          && user[a] in live && live[user[a]] == a)
  }

  ghost predicate LiveOk(kind: map<int, Kind>, user: map<int, int>, live: map<int, int>) {
    forall p :: p in live ==>
      && p != 0 && live[p] in kind
      && (match kind[live[p]]
          case Slab(k) => IsCell(live[p], k, p)
          case Big(_) => live[p] in user && user[live[p]] == p)
  }

  datatype Clause = Shape | Tiles | Slabs | Bins | Frees | Bigs | Lives

  ghost predicate Holds(c: Clause, g: State) {
    match c
    case Shape => Layout(g.start, g.top, g.kind)
    case Tiles => Tiled(g.start, g.top, g.order, g.kind)
    case Slabs => SlabsOk(g.kind, g.stacks, g.live)
    case Bins => BinsOk(g.kind, g.stacks, g.bins)
    case Frees => FreeOk(g.kind, g.free, g.user)
    case Bigs => BigsOk(g.kind, g.user, g.live)
    case Lives => LiveOk(g.kind, g.user, g.live)
  }

  ghost predicate Inv(g: State) {
    forall c :: Holds(c, g)
  }

  // Bytes a client may use from pointer p.
  function Capacity(g: State, p: int): int {
    if p !in g.live || g.live[p] !in g.kind then 0
    else
      match g.kind[g.live[p]]
      case Slab(k) => CellSize(k)
      case Big(n) => g.live[p] + n * 0x1000 - p
  }

  // ----- The operations -----

  function Empty(start: int): State {
    State(start, start, [], map[], map[], seq(BIG_BIN, _ => []), [], map[], map[])
  }

  // A fresh slab: all cells free, at the front of its bin.
  function GrowSlab(g: State, k: nat): State
    requires k < |g.bins|
  {
    var a := g.top;
    g.(top := a + PAGE,
       order := g.order + [a],
       kind := g.kind[a := Slab(k)],
       stacks := g.stacks[a := CellsFrom(a, k, 0)],
       bins := g.bins[k := [a] + g.bins[k]])
  }

  // Pop the first free cell of the first slab of the bin.
  function TakeCell(g: State, k: nat): State
    requires k < |g.bins| && g.bins[k] != []
    requires g.bins[k][0] in g.stacks && g.stacks[g.bins[k][0]] != []
  {
    var a := g.bins[k][0];
    var s := g.stacks[a];
    g.(stacks := g.stacks[a := s[1..]],
       live := g.live[s[0] := a],
       bins := if |s| == 1 then g.bins[k := g.bins[k][1..]] else g.bins)
  }

  function GrowBig(g: State, pages: nat): State {
    var a := g.top;
    g.(top := a + pages * 0x1000,
       order := g.order + [a],
       kind := g.kind[a := Big(pages)],
       user := g.user[a := a + BIG_HEADER],
       live := g.live[a + BIG_HEADER := a])
  }

  // Hand out the free block at index j.
  function TakeBig(g: State, j: nat): State
    requires j < |g.free|
  {
    var a := g.free[j].addr;
    g.(free := Removed(g.free, j),
       user := g.user[a := a + BIG_HEADER],
       live := g.live[a + BIG_HEADER := a])
  }

  // Push a cell back; a slab that was full rejoins the front of its bin.
  function GiveCell(g: State, p: int): State
    requires p in g.live && g.live[p] in g.stacks && g.live[p] in g.kind
    requires g.kind[g.live[p]].Slab? && g.kind[g.live[p]].bucket < |g.bins|
  {
    var a := g.live[p];
    var k := g.kind[a].bucket;
    g.(stacks := g.stacks[a := [p] + g.stacks[a]],
       live := g.live - {p},
       bins := if g.stacks[a] == [] then g.bins[k := [a] + g.bins[k]] else g.bins)
  }

  // Put a big block back on the free list under a tower of the given height.
  function GiveBig(g: State, p: int, height: nat): State
    requires p in g.live && g.live[p] in g.kind && g.kind[g.live[p]].Big?
  {
    var a := g.live[p];
    g.(free := Inserted(g.free, FreeNode(a, BigCapacity(g.kind[a].pages), height)),
       user := g.user[a := 0],
       live := g.live - {p})
  }

  // valloc hands out the first page boundary inside the block instead.
  function Realign(g: State, p: int): State
    requires p in g.live
  {
    var a := g.live[p];
    g.(user := g.user[a := a + PAGE],
       live := (g.live - {p})[a + PAGE := a])
  }
}
