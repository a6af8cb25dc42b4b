// Safety over whole runs: any sequence of allocator calls and client writes.
module HeapRuns {
  import opened RamModel
  import opened SizeClasses
  import opened SkipLists
  import opened HeapState
  import opened HeapInvariant
  import opened HeapMemory
  import opened HeapOperations
  import opened HeapSpec
  import opened KernelHeap

  datatype Op =
    | Malloc(size: nat)
    | Calloc(nmemb: nat, size: nat)
    | Valloc(size: nat)
    | Realloc(p: int, size: nat)
    | Free(p: int)
    | Write(p: int, x: int, v: Byte)   // a client stores byte v at x, in its block p

  datatype Moment = Moment(g: State, m: Memory)

  function Product(nmemb: nat, size: nat): nat {
    nmemb * size % 0x1_0000_0000
  }

  // What a client may ask: only its own pointers, only requests the heap has
  // room for, no clear and no copy that is larger than its blocks.
  ghost predicate Legal(s: Moment, op: Op)
    requires Inv(s.g)
  {
    match op
    case Malloc(n) => n < WORD_LIMIT && RoomFor(s.g, n)
    case Calloc(k, n) => Product(k, n) + BIG_HEADER < WORD_LIMIT && RoomFor(s.g, Product(k, n))
    case Valloc(n) => n < WORD_LIMIT && RoomFor(s.g, VallocSize(n))
    case Realloc(p, n) =>
      && p in s.g.live && n < WORD_LIMIT
      && (Moves(s.m, p, n) ==> RoomFor(s.g, n) && MoveFits(s.g, s.m, p, n))
    case Free(p) => p in s.g.live
    case Write(p, x, _) => Owns(s.g, p, x)
  }

  ghost predicate FreedFrom(g: State, p: int, g': State)
    requires Inv(g) && p in g.live
  {
    exists h :: 0 <= h <= MAX_LEVEL && g' == Freed(g, p, h)
  }

  // The client whose bytes an operation may change or give up, or 0.
  function Subject(op: Op): int {
    match op
    case Realloc(p, _) => p
    case Free(p) => p
    case Write(p, _, _) => p
    case _ => 0
  }

  ghost predicate NewState(s: Moment, op: Op, g': State)
    requires Inv(s.g) && Legal(s, op)
  {
    match op
    case Malloc(n) => g' == Allocated(s.g, n).0
    case Calloc(k, n) => g' == Allocated(s.g, Product(k, n)).0
    case Valloc(n) => g' == Valloced(s.g, n).0
    case Realloc(p, n) =>
      if n == 0 then FreedFrom(s.g, p, g')
      else if !Moves(s.m, p, n) then g' == s.g
      else
        var g1 := Allocated(s.g, n).0;
        p in g1.live && FreedFrom(g1, p, g')
    case Free(p) => FreedFrom(s.g, p, g')
    case Write(_, _, _) => g' == s.g
  }

  // The pointer the client gets; 0 from operations that return none.
  ghost function Result(s: Moment, op: Op): int
    requires Inv(s.g) && Legal(s, op)
  {
    match op
    case Malloc(n) => Allocated(s.g, n).1
    case Calloc(k, n) => Allocated(s.g, Product(k, n)).1
    case Valloc(n) => Valloced(s.g, n).1
    case Realloc(p, n) =>
      if n == 0 || !Recognised(s.m, p) then 0
      else if !Moves(s.m, p, n) then p
      else Allocated(s.g, n).1
    case _ => 0
  }

  // What the operation puts into memory for its client: calloc zeroes, a moving
  // realloc copies, a staying one touches nothing, a write stores its byte.
  ghost predicate Delivered(s: Moment, op: Op, m': Memory)
    requires Inv(s.g) && Legal(s, op)
  {
    match op
    case Calloc(k, n) =>
      var p := Result(s, op);
      p != 0 ==> forall y :: p <= y < p + Product(k, n) ==> ByteAt(m', y) == 0
    case Realloc(p, n) =>
      if Moves(s.m, p, n) then SameContents(s.m, p, m', Result(s, op), SizeRead(s.m, p))
      else n > 0 ==> m' == s.m
    case Write(_, x, v) => m' == StoreByte(s.m, x, v)
    case _ => true
  }

  ghost predicate Step(s: Moment, op: Op, s': Moment)
    requires Inv(s.g)
  {
    && Legal(s, op)
    && NewState(s, op, s'.g)
    && ClientsUntouched(s.g, s.m, s'.m, Subject(op))
    && Delivered(s, op, s'.m)
  }

  // The heap performs every legal operation as a step and returns its result.
  method Perform(h: Heap, op: Op) returns (r: int)
    requires h.Valid() && Legal(Moment(h.g, h.ram.m), op)
    modifies h`heapEnd, h`heads, h`newest, h`g, h.bigs, h.ram
    ensures h.Valid() && Inv(old(h.g)) && Legal(Moment(old(h.g), old(h.ram.m)), op)
    ensures Step(Moment(old(h.g), old(h.ram.m)), op, Moment(h.g, h.ram.m))
    ensures r == Result(Moment(old(h.g), old(h.ram.m)), op)
  {
    ghost var height: nat;
    match op {
      case Malloc(n) => r := h.KlMalloc(n);
      case Calloc(k, n) => r := h.KlCalloc(k, n);
      case Valloc(n) => r := h.KlValloc(n);
      case Realloc(p, n) =>
        LiveInside(h.g, p);
        r, height := h.KlRealloc(p, n);
      case Free(p) =>
        LiveInside(h.g, p);
        height := h.KlFree(p);
        r := 0;
      case Write(p, x, v) =>
        h.ClientStore(p, x, v);
        r := 0;
    }
  }

  // A pointer returned is its client's from then on, save for a valloc that wraps.
  lemma ResultIsLive(s: Moment, op: Op, s': Moment)
    requires Inv(s.g) && Step(s, op, s') && Result(s, op) != 0
    requires op.Valloc? ==> op.size + PAGE < WORD_LIMIT
    ensures Result(s, op) in s'.g.live
    ensures (op.Realloc? && Result(s, op) == op.p) || Result(s, op) !in s.g.live
  {
    match op {
      case Malloc(n) => AllocationIsNew(s.g, n);
      case Calloc(k, n) => AllocationIsNew(s.g, Product(k, n));
      case Valloc(n) => VallocIsNew(s.g, n);
      case Realloc(p, n) =>
        if Moves(s.m, p, n) {
          AllocationIsNew(s.g, n);
          var (g1, q) := Allocated(s.g, n);
          var h :| 0 <= h <= MAX_LEVEL && s'.g == Freed(g1, p, h);
          FreedKeeps(g1, p, h, q);
        }
    }
  }

  // A new client has pointer r, and no one else has gained or lost one.
  ghost predicate Joins(live: map<int, int>, live': map<int, int>, r: int) {
    r != 0 && r !in live && r in live' && live' == live[r := live'[r]]
  }

  // malloc and calloc: a request of nothing gets nothing; any other a new pointer,
  // with room for it unless header and request wrap, and calloc clears it.
  lemma MallocStep(s: Moment, op: Op, s': Moment)
    requires Inv(s.g) && Step(s, op, s') && (op.Malloc? || op.Calloc?)
    ensures var n := if op.Malloc? then op.size else op.nmemb * op.size % 0x1_0000_0000;
            var r := Result(s, op);
            && (if n == 0 then r == 0 && s'.g.live == s.g.live else Joins(s.g.live, s'.g.live, r) && r % 0x1000 != 0)
            && (n > 0 && n + 48 < 0x1_0000_0000 ==> n <= Capacity(s'.g, r))
            && (op.Calloc? ==> forall y :: r <= y < r + n && r != 0 ==> ByteAt(s'.m, y) == 0)
  {
    var n := if op.Malloc? then op.size else Product(op.nmemb, op.size);
    if n > 0 { AllocationIsNew(s.g, n); }
  }

  // valloc: a new page-aligned pointer with room for the request unless that wraps.
  lemma VallocStep(s: Moment, op: Op, s': Moment)
    requires Inv(s.g) && Step(s, op, s') && op.Valloc? && op.size + 4096 < 0x1_0000_0000
    ensures var r := Result(s, op);
            Joins(s.g.live, s'.g.live, r) && r % 0x1000 == 0 && op.size <= Capacity(s'.g, r)
  {
    VallocIsNew(s.g, op.size);
    LiveInside(s'.g, Result(s, op));
  }

  // free: exactly that pointer is nobody's any longer. A write: that byte, no other.
  lemma FreeStep(s: Moment, op: Op, s': Moment)
    requires Inv(s.g) && Step(s, op, s') && (op.Free? || op.Write?)
    ensures Result(s, op) == 0
    ensures op.Free? ==> s'.g.live == s.g.live - {op.p}
    ensures op.Write? ==> s'.g == s.g && forall y :: ByteAt(s'.m, y) == if y == op.x then op.v else ByteAt(s.m, y)
  {
    if op.Free? {
      var h :| 0 <= h <= MAX_LEVEL && s'.g == Freed(s.g, op.p, h);
      FreedLive(s.g, op.p, h);
    } else {
      forall y ensures ByteAt(s'.m, y) == if y == op.x then op.v else ByteAt(s.m, y) {
        StoreByteBytes(s.m, op.x, op.v, y);
      }
    }
  }

  lemma FreedLive(g: State, p: int, h: nat)
    requires Inv(g) && p in g.live && h <= MAX_LEVEL
    ensures Freed(g, p, h).live == g.live - {p}
  {
    LiveInside(g, p);
    if g.kind[g.live[p]].Slab? { FreeIntoSlab(g, p, h); }
  }

  // realloc of a pointer that is not from valloc: to nothing it frees; otherwise the
  // block stays exactly if it is large enough, and moves with its contents to a new
  // one that is, if it is not.
  lemma ReallocStep(s: Moment, op: Op, s': Moment, r: Roots)
    requires Inv(s.g) && Step(s, op, s') && Represents(s.m, r, s.g)
    requires op.Realloc? && op.p % 0x1000 != 0 && op.size + 48 < 0x1_0000_0000
    ensures var q, c := Result(s, op), Capacity(s.g, op.p);
            if op.size == 0 then q == 0 && s'.g.live == s.g.live - {op.p}
            else if op.size <= c then q == op.p && s' == s
            else
              && op.p in s.g.live && q != 0 && q !in s.g.live && q in s'.g.live
              && s'.g.live == (s.g.live - {op.p})[q := s'.g.live[q]] && op.size <= Capacity(s'.g, q)
              && forall y :: q <= y < q + c ==> ByteAt(s'.m, y) == ByteAt(s.m, y - q + op.p)
  {
    var p, n := op.p, op.size;
    SizeReadIs(s.m, r, s.g, p);
    if n == 0 {
      var h :| 0 <= h <= MAX_LEVEL && s'.g == Freed(s.g, p, h);
      FreedLive(s.g, p, h);
    } else if n > Capacity(s.g, p) {
      AllocationIsNew(s.g, n);
      var (g1, q) := Allocated(s.g, n);
      var h :| 0 <= h <= MAX_LEVEL && s'.g == Freed(g1, p, h);
      FreedLive(g1, p, h);
      FreedKeeps(g1, p, h, q);
    }
  }

  // ----- Runs -----

  ghost predicate Run(trace: seq<Moment>, ops: seq<Op>) {
    && |trace| == |ops| + 1
    && forall i :: 0 <= i < |ops| ==> Inv(trace[i].g) ==> Step(trace[i], ops[i], trace[i + 1])
  }

  // No two clients share a byte; every client's bytes lie inside the heap, in no
  // block's header (where the skip list's towers are), in no free cell and no free
  // big block, and contain no word the allocator reads.
  ghost predicate Isolated(g: State) {
    && (forall p, q :: p in g.live && q in g.live && p != q ==>
          p + Capacity(g, p) <= q || q + Capacity(g, q) <= p)
    && (forall p, x :: Owns(g, p, x) ==> g.start <= x < g.top && !Meta(g, x))
    && (forall p, x, b :: Owns(g, p, x) && b in g.kind ==> !(b <= x < b + HeaderLen(g.kind[b])))
    && (forall p, x, a, c :: Owns(g, p, x) && FreeCell(g, a, c) ==> !(c <= x < c + CellSize(g.kind[a].bucket)))
    && (forall p, x, j :: Owns(g, p, x) && 0 <= j < |g.free| ==>
          g.free[j].addr in g.kind && !(g.free[j].addr <= x < g.free[j].addr + Len(g.kind[g.free[j].addr])))
  }

  // c is a free cell of slab a.
  ghost predicate FreeCell(g: State, a: int, c: int) {
    a in g.stacks && c in g.stacks[a] && a in g.kind && g.kind[a].Slab?
  }

  lemma ClientMissesFreeCell(g: State, p: int, x: int, a: int, c: int)
    requires Inv(g) && Owns(g, p, x) && FreeCell(g, a, c)
    ensures !(c <= x < c + CellSize(g.kind[a].bucket))
  {
    ClientWord(g, p, x);
    BlockBounds(g, a);
    var b, k := g.live[p], g.kind[a].bucket;
    BlocksApart(g, a, b);
    assert IsCell(a, k, c) && c !in g.live by { assert Holds(Slabs, g); }
    CellBounds(a, k, c);
    if a == b {
      LiveCell(g, p);
      CellsApart(a, k, c, p);
    }
  }

  lemma ClientMissesFreeBlock(g: State, p: int, x: int, j: nat)
    requires Inv(g) && Owns(g, p, x) && j < |g.free|
    ensures g.free[j].addr in g.kind && !(g.free[j].addr <= x < g.free[j].addr + Len(g.kind[g.free[j].addr]))
  {
    ClientWord(g, p, x);
    FreeBlock(g, j);
    var a, b := g.free[j].addr, g.live[p];
    BlocksApart(g, a, b);
    if a == b { LiveBig(g, p); }
  }

  lemma StepKeepsInv(s: Moment, op: Op, s': Moment)
    requires Inv(s.g) && Step(s, op, s')
    ensures Inv(s'.g)
  {
  }

  lemma InvIsolates(g: State)
    requires Inv(g)
    ensures Isolated(g)
  {
    forall p, q | p in g.live && q in g.live && p != q
      ensures p + Capacity(g, p) <= q || q + Capacity(g, q) <= p
    {
      LiveApart(g, p, q);
    }
    forall p, x | Owns(g, p, x) ensures g.start <= x < g.top && !Meta(g, x) {
      ClientWord(g, p, x);
      ClientMissesMeta(g, p, x);
    }
    forall p, x, b | Owns(g, p, x) && b in g.kind ensures !(b <= x < b + HeaderLen(g.kind[b])) {
      ClientWord(g, p, x);
    }
    forall p, x, a, c | Owns(g, p, x) && FreeCell(g, a, c) ensures !(c <= x < c + CellSize(g.kind[a].bucket)) {
      ClientMissesFreeCell(g, p, x, a, c);
    }
    forall p, x, j | Owns(g, p, x) && 0 <= j < |g.free|
      ensures g.free[j].addr in g.kind && !(g.free[j].addr <= x < g.free[j].addr + Len(g.kind[g.free[j].addr]))
    {
      ClientMissesFreeBlock(g, p, x, j);
    }
  }

  // Whatever clients ask for and write, the invariant holds at every moment and
  // clients stay isolated from each other and from the allocator.
  lemma {:induction false} RunsAreSafe(trace: seq<Moment>, ops: seq<Op>, n: nat)
    requires Run(trace, ops) && Inv(trace[0].g) && n <= |ops|
    ensures Inv(trace[n].g) && Isolated(trace[n].g)
  {
    if n > 0 {
      RunsAreSafe(trace, ops, n - 1);
      StepKeepsInv(trace[n - 1], ops[n - 1], trace[n]);
    }
    InvIsolates(trace[n].g);
  }

  // ----- Contents -----

  // p is held by a client whose block, capacity and bytes are the same at both
  // moments.
  ghost predicate Intact(s: Moment, s': Moment, p: int) {
    && p in s.g.live && p in s'.g.live && s'.g.live[p] == s.g.live[p]
    && Capacity(s'.g, p) == Capacity(s.g, p)
    && SameContents(s.m, p, s'.m, p, Capacity(s.g, p))
  }

  lemma FreedKeeps(g: State, p: int, h: nat, q: int)
    requires Inv(g) && p in g.live && q in g.live && p != q && h <= MAX_LEVEL
    ensures var g' := Freed(g, p, h);
            q in g'.live && g'.live[q] == g.live[q] && Capacity(g', q) == Capacity(g, q)
  {
  }

  lemma AllocatedKeeps(g: State, n: nat)
    requires Inv(g) && RoomFor(g, n) && n < WORD_LIMIT
    ensures ClientsKeep(g, Allocated(g, n).0)
  {
    if n > 0 { AllocationIsNew(g, n); }
  }

  lemma StateKeeps(s: Moment, op: Op, g': State, q: int)
    requires Inv(s.g) && Legal(s, op) && NewState(s, op, g') && q in s.g.live && Subject(op) != q
    ensures q in g'.live && g'.live[q] == s.g.live[q] && Capacity(g', q) == Capacity(s.g, q)
  {
    match op {
      case Malloc(n) => AllocatedKeeps(s.g, n);
      case Calloc(k, n) => AllocatedKeeps(s.g, Product(k, n));
      case Valloc(n) => VallocIsNew(s.g, n);
      case Realloc(p, n) =>
        if n == 0 {
          var h :| 0 <= h <= MAX_LEVEL && g' == Freed(s.g, p, h);
          FreedKeeps(s.g, p, h, q);
        } else if Moves(s.m, p, n) {
          AllocatedKeeps(s.g, n);
          var g1 := Allocated(s.g, n).0;
          var h :| 0 <= h <= MAX_LEVEL && g' == Freed(g1, p, h);
          FreedKeeps(g1, p, h, q);
        }
      case Free(p) =>
        var h :| 0 <= h <= MAX_LEVEL && g' == Freed(s.g, p, h);
        FreedKeeps(s.g, p, h, q);
      case Write(_, _, _) =>
    }
  }

  lemma StepKeepsOthers(s: Moment, op: Op, s': Moment, q: int)
    requires Inv(s.g) && Step(s, op, s') && q in s.g.live && Subject(op) != q
    ensures Intact(s, s', q)
  {
    StateKeeps(s, op, s'.g, q);
    BytesUntouched(s.g, s.m, s'.m, Subject(op), q);
  }

  // Between the operations that name it, a client's block keeps its place, its
  // size and every byte, whatever all the others do.
  lemma {:induction false} ContentsPersist(trace: seq<Moment>, ops: seq<Op>, i: nat, j: nat, p: int)
    requires Run(trace, ops) && Inv(trace[0].g) && i <= j <= |ops| && p in trace[i].g.live
    requires forall k :: i <= k < j && (ops[k].Realloc? || ops[k].Free? || ops[k].Write?) ==> ops[k].p != p
    ensures Intact(trace[i], trace[j], p) && Capacity(trace[j].g, p) == Capacity(trace[i].g, p)
    ensures forall y :: p <= y < p + Capacity(trace[i].g, p) ==> ByteAt(trace[j].m, y) == ByteAt(trace[i].m, y)
    decreases j - i
  {
    if i < j {
      ContentsPersist(trace, ops, i, j - 1, p);
      RunsAreSafe(trace, ops, j - 1);
      LiveInside(trace[j - 1].g, p);
      StepKeepsOthers(trace[j - 1], ops[j - 1], trace[j], p);
    }
  }

  // A byte written reads back until the next operation on its block.
  lemma WrittenByteReadsBack(trace: seq<Moment>, ops: seq<Op>, i: nat, j: nat)
    requires Run(trace, ops) && Inv(trace[0].g) && i < j <= |ops| && ops[i].Write?
    requires forall k :: i < k < j && (ops[k].Realloc? || ops[k].Free? || ops[k].Write?) ==> ops[k].p != ops[i].p
    ensures ByteAt(trace[j].m, ops[i].x) == ops[i].v
  {
    RunsAreSafe(trace, ops, i);
    var p, x := ops[i].p, ops[i].x;
    assert Step(trace[i], ops[i], trace[i + 1]);
    StoreByteBytes(trace[i].m, x, ops[i].v, x);
    ContentsPersist(trace, ops, i + 1, j, p);
    assert p <= x < p + Capacity(trace[i + 1].g, p);
  }
}
