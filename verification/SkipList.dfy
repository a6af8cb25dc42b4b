// The skip list of free big blocks. Its nodes are the blocks' own headers in
// memory; `forward[i]` of a header is the word 20 + 4 * i bytes into it. The
// ghost sequence `free` is the level-0 chain, each entry with its tower height,
// and every level's chain is the subsequence of the towers that reach it.
module SkipLists {
  import opened RamModel
  import opened SizeClasses

  const MAX_LEVEL: nat := 6
  const FORWARD: nat := 20

  datatype FreeNode = FreeNode(addr: int, size: int, height: nat)

  function Slot(node: int, i: int): int {
    node + FORWARD + 4 * i
  }

  // Chain positions: 0 is the list head, p > 0 is the node free[p - 1].
  function NodeAt(head: int, free: seq<FreeNode>, p: nat): int
    requires p <= |free|
  {
    if p == 0 then head else free[p - 1].addr
  }

  function AddrAt(free: seq<FreeNode>, j: nat): int {
    if j < |free| then free[j].addr else 0
  }

  predicate Reaches(free: seq<FreeNode>, p: nat, i: int)
    requires p <= |free|
  {
    p == 0 || i <= free[p - 1].height
  }

  // Index of the first tower at or after j that reaches level i.
  function NextIdx(free: seq<FreeNode>, i: int, j: nat): (r: nat)
    requires j <= |free|
    ensures j <= r <= |free|
    ensures forall t :: j <= t < r ==> free[t].height < i
    ensures r < |free| ==> free[r].height >= i
    decreases |free| - j
  {
    if j == |free| || free[j].height >= i then j else NextIdx(free, i, j + 1)
  }

  // Position of the last tower before index k that reaches level i, or the head.
  function PrevPos(free: seq<FreeNode>, i: int, k: nat): (p: nat)
    requires k <= |free|
    ensures p <= k && Reaches(free, p, i)
    ensures forall t :: p <= t < k ==> free[t].height < i
  {
    if k == 0 || free[k - 1].height >= i then k else PrevPos(free, i, k - 1)
  }

  // How many leading blocks are smaller than size.
  function LowerBound(free: seq<FreeNode>, size: int): (r: nat)
    ensures r <= |free|
    ensures forall t :: 0 <= t < r ==> free[t].size < size
    ensures r < |free| ==> free[r].size >= size
  {
    if free == [] || free[0].size >= size then 0 else 1 + LowerBound(free[1..], size)
  }

  // h is the height of the tallest tower, 0 for the empty list.
  ghost predicate Tallest(free: seq<FreeNode>, h: nat) {
    && (forall t :: 0 <= t < |free| ==> free[t].height <= h)
    && (h > 0 ==> exists t :: 0 <= t < |free| && free[t].height == h)
  }

  ghost predicate Sorted(free: seq<FreeNode>) {
    forall j, k :: 0 <= j < k < |free| ==> free[j].size <= free[k].size
  }

  ghost predicate Heights(free: seq<FreeNode>) {
    forall j :: 0 <= j < |free| ==> free[j].height <= MAX_LEVEL
  }

  // Headers, the list head included, do not overlap and are not NULL.
  ghost predicate Spaced(head: int, free: seq<FreeNode>) {
    && (forall p :: 0 <= p <= |free| ==> NodeAt(head, free, p) > 0)
    && (forall p, q :: 0 <= p <= |free| && 0 <= q <= |free| && p != q ==>
          || NodeAt(head, free, p) + BIG_HEADER <= NodeAt(head, free, q)
          || NodeAt(head, free, q) + BIG_HEADER <= NodeAt(head, free, p))
  }

  ghost predicate Sizes(m: Memory, free: seq<FreeNode>) {
    forall j :: 0 <= j < |free| ==> Rd(m, free[j].addr + 8) == free[j].size
  }

  // Every forward pointer of every tower leads to the next tower of its level.
  ghost predicate Linked(m: Memory, head: int, free: seq<FreeNode>) {
    forall p, i :: 0 <= p <= |free| && 0 <= i <= MAX_LEVEL && Reaches(free, p, i) ==>
      Rd(m, Slot(NodeAt(head, free, p), i)) == AddrAt(free, NextIdx(free, i, p))
  }

  ghost predicate InTower(head: int, free: seq<FreeNode>, x: int) {
    exists p :: 0 <= p <= |free| && NodeAt(head, free, p) + FORWARD <= x < NodeAt(head, free, p) + BIG_HEADER
  }

  // Memory is unchanged outside the towers of the list.
  ghost predicate OnlyTowers(m: Memory, m': Memory, head: int, free: seq<FreeNode>) {
    forall x :: Rd(m', x) != Rd(m, x) ==> InTower(head, free, x)
  }

  function InsertAt(free: seq<FreeNode>, k: nat, n: FreeNode): (r: seq<FreeNode>)
    requires k <= |free|
    ensures |r| == |free| + 1 && r[k] == n
    ensures forall j :: 0 <= j < k ==> r[j] == free[j]
    ensures forall j :: k < j < |r| ==> r[j] == free[j - 1]
  {
    free[..k] + [n] + free[k..]
  }

  // A block goes before all blocks of its size or more.
  function Inserted(free: seq<FreeNode>, n: FreeNode): seq<FreeNode> {
    InsertAt(free, LowerBound(free, n.size), n)
  }

  function Removed(free: seq<FreeNode>, k: nat): (r: seq<FreeNode>)
    requires k < |free|
    ensures |r| == |free| - 1
    ensures forall j :: 0 <= j < k ==> r[j] == free[j]
    ensures forall j :: k <= j < |r| ==> r[j] == free[j + 1]
  {
    free[..k] + free[k + 1..]
  }

  // The next tower at or after position p is at index r.
  lemma NextIdxUnique(free: seq<FreeNode>, i: int, p: nat, r: nat)
    requires p <= r <= |free|
    requires forall t :: p <= t < r ==> free[t].height < i
    requires r < |free| ==> free[r].height >= i
    ensures NextIdx(free, i, p) == r
    decreases r - p
  {
    if p < r { NextIdxUnique(free, i, p + 1, r); }
  }

  lemma PrevPosUnique(free: seq<FreeNode>, i: int, k: nat, p: nat)
    requires p <= k <= |free| && Reaches(free, p, i)
    requires forall t :: p <= t < k ==> free[t].height < i
    ensures PrevPos(free, i, k) == p
  {
    if p < k { PrevPosUnique(free, i, k - 1, p); }
  }

  lemma LowerBoundUnique(free: seq<FreeNode>, size: int, k: nat)
    requires k <= |free|
    requires forall t :: 0 <= t < k ==> free[t].size < size
    requires k < |free| ==> free[k].size >= size
    ensures LowerBound(free, size) == k
  {
    if k > 0 { LowerBoundUnique(free[1..], size, k - 1); }
  }

  // The list after an insertion and a removal, in full.
  lemma ListChanges(free: seq<FreeNode>, n: FreeNode, k: nat)
    requires k <= |free| && forall t :: 0 <= t < k ==> free[t].size < n.size
    requires k < |free| ==> n.size <= free[k].size
    ensures Inserted(free, n) == free[..k] + [n] + free[k..]
    ensures k < |free| ==> Removed(free, k) == free[..k] + free[k + 1..]
  {
    LowerBoundUnique(free, n.size, k);
  }

  // The best fit is the first block of its own size.
  lemma BestFitIsFirstOfItsSize(free: seq<FreeNode>, size: int)
    requires LowerBound(free, size) < |free|
    ensures LowerBound(free, free[LowerBound(free, size)].size) == LowerBound(free, size)
  {
    LowerBoundUnique(free, free[LowerBound(free, size)].size, LowerBound(free, size));
  }

  // Between the last tower before k and k itself no tower reaches level i.
  lemma NextFromPrev(free: seq<FreeNode>, i: int, k: nat)
    requires k <= |free|
    ensures NextIdx(free, i, PrevPos(free, i, k)) == NextIdx(free, i, k)
  {
    NextIdxUnique(free, i, PrevPos(free, i, k), NextIdx(free, i, k));
  }

  lemma InsertedSorted(free: seq<FreeNode>, n: FreeNode)
    requires Sorted(free)
    ensures Sorted(Inserted(free, n))
  {
  }

  // Memory while node v is being linked in before index k: levels below `done`
  // of its predecessors already point to v, and v to their old successors.
  ghost predicate PartlyLinked(m: Memory, head: int, free: seq<FreeNode>, v: int, k: nat, done: nat)
    requires k <= |free|
  {
    && (forall p, t :: 0 <= p <= |free| && 0 <= t <= MAX_LEVEL && Reaches(free, p, t) ==>
          Rd(m, Slot(NodeAt(head, free, p), t)) ==
          if t < done && p == PrevPos(free, t, k) then v else AddrAt(free, NextIdx(free, t, p)))
    && (forall t :: 0 <= t < done ==> Rd(m, Slot(v, t)) == AddrAt(free, NextIdx(free, t, k)))
  }

  // Memory while free[k] is being unlinked: its predecessors below `done`
  // already point past it.
  ghost predicate PartlyUnlinked(m: Memory, head: int, free: seq<FreeNode>, k: nat, done: nat)
    requires k < |free|
  {
    forall p, t :: 0 <= p <= |free| && 0 <= t <= MAX_LEVEL && Reaches(free, p, t) ==>
      Rd(m, Slot(NodeAt(head, free, p), t)) ==
      if t < done && p == PrevPos(free, t, k) then AddrAt(free, NextIdx(free, t, k + 1))
      else AddrAt(free, NextIdx(free, t, p))
  }

  lemma InsertedNextAtPrev(free: seq<FreeNode>, k: nat, n: FreeNode, t: nat)
    requires k <= |free|
    ensures AddrAt(InsertAt(free, k, n), NextIdx(InsertAt(free, k, n), t, PrevPos(free, t, k))) ==
            if t <= n.height then n.addr else AddrAt(free, NextIdx(free, t, PrevPos(free, t, k)))
  {
    var free', p := InsertAt(free, k, n), PrevPos(free, t, k);
    NextFromPrev(free, t, k);
    if t <= n.height {
      NextIdxUnique(free', t, p, k);
    } else {
      NextIdxUnique(free', t, p, NextIdx(free, t, k) + 1);
    }
  }

  lemma InsertedNextBefore(free: seq<FreeNode>, k: nat, n: FreeNode, t: nat, p: nat)
    requires k <= |free| && p < PrevPos(free, t, k)
    ensures AddrAt(InsertAt(free, k, n), NextIdx(InsertAt(free, k, n), t, p)) ==
            AddrAt(free, NextIdx(free, t, p))
  {
    NextIdxUnique(InsertAt(free, k, n), t, p, NextIdx(free, t, p));
  }

  lemma InsertedNextAfter(free: seq<FreeNode>, k: nat, n: FreeNode, t: nat, p: nat)
    requires k <= p <= |free|
    ensures AddrAt(InsertAt(free, k, n), NextIdx(InsertAt(free, k, n), t, p + 1)) ==
            AddrAt(free, NextIdx(free, t, p))
  {
    NextIdxUnique(InsertAt(free, k, n), t, p + 1, NextIdx(free, t, p) + 1);
  }

  lemma InsertLinked(m: Memory, head: int, free: seq<FreeNode>, k: nat, n: FreeNode)
    requires k <= |free|
    requires PartlyLinked(m, head, free, n.addr, k, n.height + 1)
    ensures Linked(m, head, InsertAt(free, k, n))
  {
    var free' := InsertAt(free, k, n);
    forall p, t | 0 <= p <= |free'| && 0 <= t <= MAX_LEVEL && Reaches(free', p, t)
      ensures Rd(m, Slot(NodeAt(head, free', p), t)) == AddrAt(free', NextIdx(free', t, p))
    {
      InsertLinkedAt(m, head, free, k, n, p, t);
    }
  }

  lemma InsertLinkedAt(m: Memory, head: int, free: seq<FreeNode>, k: nat, n: FreeNode, p: nat, t: nat)
    requires k <= |free|
    requires PartlyLinked(m, head, free, n.addr, k, n.height + 1)
    requires p <= |free| + 1 && t <= MAX_LEVEL && Reaches(InsertAt(free, k, n), p, t)
    ensures Rd(m, Slot(NodeAt(head, InsertAt(free, k, n), p), t)) ==
            AddrAt(InsertAt(free, k, n), NextIdx(InsertAt(free, k, n), t, p))
  {
    var free' := InsertAt(free, k, n);
    if p <= k {
      assert NodeAt(head, free', p) == NodeAt(head, free, p) && Reaches(free, p, t);
      if p == PrevPos(free, t, k) {
        InsertedNextAtPrev(free, k, n, t);
      } else {
        InsertedNextBefore(free, k, n, t, p);
      }
    } else {
      InsertedNextAfter(free, k, n, t, p - 1);
      if p > k + 1 {
        assert NodeAt(head, free', p) == NodeAt(head, free, p - 1) && Reaches(free, p - 1, t);
      }
    }
  }

  lemma RemovedNextAtPrev(free: seq<FreeNode>, k: nat, t: nat)
    requires k < |free|
    ensures AddrAt(Removed(free, k), NextIdx(Removed(free, k), t, PrevPos(free, t, k))) ==
            AddrAt(free, NextIdx(free, t, k + 1))
    ensures t > free[k].height ==> NextIdx(free, t, PrevPos(free, t, k)) == NextIdx(free, t, k + 1)
  {
    var free', p, r := Removed(free, k), PrevPos(free, t, k), NextIdx(free, t, k + 1);
    NextIdxUnique(free', t, p, r - 1);
    if free[k].height < t { NextIdxUnique(free, t, p, r); }
  }

  lemma RemovedNextBefore(free: seq<FreeNode>, k: nat, t: nat, p: nat)
    requires k < |free| && p < PrevPos(free, t, k)
    ensures AddrAt(Removed(free, k), NextIdx(Removed(free, k), t, p)) == AddrAt(free, NextIdx(free, t, p))
  {
    NextIdxUnique(Removed(free, k), t, p, NextIdx(free, t, p));
  }

  lemma RemovedNextAfter(free: seq<FreeNode>, k: nat, t: nat, p: nat)
    requires k < p <= |free|
    ensures AddrAt(Removed(free, k), NextIdx(Removed(free, k), t, p - 1)) == AddrAt(free, NextIdx(free, t, p))
  {
    NextIdxUnique(Removed(free, k), t, p - 1, NextIdx(free, t, p) - 1);
  }

  lemma RemoveLinked(m: Memory, head: int, free: seq<FreeNode>, k: nat)
    requires k < |free|
    requires PartlyUnlinked(m, head, free, k, free[k].height + 1)
    ensures Linked(m, head, Removed(free, k))
  {
    var free' := Removed(free, k);
    forall p, t | 0 <= p <= |free'| && 0 <= t <= MAX_LEVEL && Reaches(free', p, t)
      ensures Rd(m, Slot(NodeAt(head, free', p), t)) == AddrAt(free', NextIdx(free', t, p))
    {
      RemoveLinkedAt(m, head, free, k, p, t);
    }
  }

  lemma RemoveLinkedAt(m: Memory, head: int, free: seq<FreeNode>, k: nat, p: nat, t: nat)
    requires k < |free| && PartlyUnlinked(m, head, free, k, free[k].height + 1)
    requires p < |free| && t <= MAX_LEVEL && Reaches(Removed(free, k), p, t)
    ensures Rd(m, Slot(NodeAt(head, Removed(free, k), p), t)) ==
            AddrAt(Removed(free, k), NextIdx(Removed(free, k), t, p))
  {
    var free' := Removed(free, k);
    if p <= k {
      assert NodeAt(head, free', p) == NodeAt(head, free, p) && Reaches(free, p, t);
      if p == PrevPos(free, t, k) {
        RemovedNextAtPrev(free, k, t);
      } else {
        RemovedNextBefore(free, k, t, p);
      }
    } else {
      RemovedNextAfter(free, k, t, p + 1);
      assert NodeAt(head, free', p) == NodeAt(head, free, p + 1) && Reaches(free, p + 1, t);
    }
  }

  lemma SlotsApart(head: int, free: seq<FreeNode>, p: nat, i: int, q: nat, j: int)
    requires Spaced(head, free) && p <= |free| && q <= |free|
    requires 0 <= i <= MAX_LEVEL && 0 <= j <= MAX_LEVEL
    ensures Slot(NodeAt(head, free, p), i) == Slot(NodeAt(head, free, q), j) ==> p == q && i == j
  {
    assert NodeAt(head, free, p) != NodeAt(head, free, q) || p == q;
  }

  ghost predicate ListParts(m: Memory, head: int, level: int, free: seq<FreeNode>) {
    && Sorted(free) && Heights(free) && Spaced(head, free) && Sizes(m, free)
    && Linked(m, head, free)
    && level >= 0 && Tallest(free, level)
  }

  datatype ListClause = Ascending | Low | Apart | Sized | Chained | Level

  ghost predicate ListHolds(c: ListClause, m: Memory, head: int, level: int, free: seq<FreeNode>) {
    match c
    case Ascending => Sorted(free)
    case Low => Heights(free)
    case Apart => Spaced(head, free)
    case Sized => Sizes(m, free)
    case Chained => Linked(m, head, free)
    case Level => level >= 0 && Tallest(free, level)
  }

  // The whole invariant, clause by clause.
  ghost predicate ListOk(m: Memory, head: int, level: int, free: seq<FreeNode>) {
    forall c :: ListHolds(c, m, head, level, free)
  }

  lemma ListUnfold(m: Memory, head: int, level: int, free: seq<FreeNode>)
    requires ListOk(m, head, level, free)
    ensures ListParts(m, head, level, free)
  {
    assert ListHolds(Ascending, m, head, level, free) && ListHolds(Low, m, head, level, free);
    assert ListHolds(Apart, m, head, level, free) && ListHolds(Sized, m, head, level, free);
    assert ListHolds(Chained, m, head, level, free) && ListHolds(Level, m, head, level, free);
  }

  lemma ListFold(m: Memory, head: int, level: int, free: seq<FreeNode>)
    requires ListParts(m, head, level, free)
    ensures ListOk(m, head, level, free)
  {
    forall c ensures ListHolds(c, m, head, level, free) { }
  }

  // A block that could join the list: clear of every header in it.
  ghost predicate Clear(head: int, free: seq<FreeNode>, value: int) {
    && 0 < value < 0x1_0000_0000
    && forall p :: 0 <= p <= |free| ==>
         || NodeAt(head, free, p) + BIG_HEADER <= value
         || value + BIG_HEADER <= NodeAt(head, free, p)
  }

  // One round of the insertion loop.
  function LinkLevel(m: Memory, v: int, prev: int, i: nat): Memory
    requires 0 <= v < 0x1_0000_0000
  {
    m[Slot(v, i) := Rd(m, Slot(prev, i))][Slot(prev, i) := v]
  }

  lemma LinkStep(m: Memory, head: int, free: seq<FreeNode>, v: int, k: nat, i: nat)
    requires Spaced(head, free) && Clear(head, free, v) && k <= |free| && i <= MAX_LEVEL
    requires PartlyLinked(m, head, free, v, k, i)
    ensures PartlyLinked(LinkLevel(m, v, NodeAt(head, free, PrevPos(free, i, k)), i), head, free, v, k, i + 1)
  {
    var prev := PrevPos(free, i, k);
    var m' := LinkLevel(m, v, NodeAt(head, free, prev), i);
    forall p, t | 0 <= p <= |free| && 0 <= t <= MAX_LEVEL && Reaches(free, p, t)
      ensures Rd(m', Slot(NodeAt(head, free, p), t)) ==
              if t < i + 1 && p == PrevPos(free, t, k) then v else AddrAt(free, NextIdx(free, t, p))
    {
      LinkStepSlot(m, head, free, v, k, i, p, t);
    }
    forall t | 0 <= t < i + 1 ensures Rd(m', Slot(v, t)) == AddrAt(free, NextIdx(free, t, k)) {
      LinkStepNew(m, head, free, v, k, i, t);
    }
  }

  lemma LinkStepNew(m: Memory, head: int, free: seq<FreeNode>, v: int, k: nat, i: nat, t: nat)
    requires Spaced(head, free) && Clear(head, free, v) && k <= |free| && i <= MAX_LEVEL && t <= i
    requires PartlyLinked(m, head, free, v, k, i)
    ensures Rd(LinkLevel(m, v, NodeAt(head, free, PrevPos(free, i, k)), i), Slot(v, t)) ==
            AddrAt(free, NextIdx(free, t, k))
  {
    var prev := NodeAt(head, free, PrevPos(free, i, k));
    assert Slot(v, t) != Slot(prev, i);
    if t == i {
      NextFromPrev(free, i, k);
      assert Rd(m, Slot(prev, i)) == AddrAt(free, NextIdx(free, i, k));
    } else {
      assert Slot(v, t) != Slot(v, i);
      assert Rd(m, Slot(v, t)) == AddrAt(free, NextIdx(free, t, k));
    }
  }

  lemma LinkStepSlot(m: Memory, head: int, free: seq<FreeNode>, v: int, k: nat, i: nat, p: nat, t: nat)
    requires Spaced(head, free) && Clear(head, free, v)
    requires k <= |free| && p <= |free| && i <= MAX_LEVEL && t <= MAX_LEVEL
    ensures Rd(LinkLevel(m, v, NodeAt(head, free, PrevPos(free, i, k)), i), Slot(NodeAt(head, free, p), t)) ==
            if t == i && p == PrevPos(free, i, k) then v else Rd(m, Slot(NodeAt(head, free, p), t))
  {
    SlotsApart(head, free, p, t, PrevPos(free, i, k), i);
  }

  lemma TowersClear(head: int, free: seq<FreeNode>, p: nat, x: int)
    requires Spaced(head, free) && p <= |free|
    requires NodeAt(head, free, p) <= x < NodeAt(head, free, p) + FORWARD
    ensures !InTower(head, free, x)
  {
  }

  lemma SizesKept(m: Memory, m': Memory, head: int, free: seq<FreeNode>)
    requires Spaced(head, free) && Sizes(m, free) && OnlyTowers(m, m', head, free)
    ensures Sizes(m', free)
  {
    forall j | 0 <= j < |free| ensures Rd(m', free[j].addr + 8) == free[j].size {
      assert NodeAt(head, free, j + 1) == free[j].addr;
      TowersClear(head, free, j + 1, free[j].addr + 8);
    }
  }

  // Where the nodes of the old chain stand in the new one.
  function OldPos(k: nat, p: nat): int {
    if p <= k then p else p - 1
  }

  lemma InsertedSpaced(head: int, free: seq<FreeNode>, k: nat, n: FreeNode)
    requires Spaced(head, free) && Clear(head, free, n.addr) && k <= |free|
    ensures Spaced(head, InsertAt(free, k, n))
  {
    var free' := InsertAt(free, k, n);
    forall p | 0 <= p <= |free'|
      ensures NodeAt(head, free', p) == if p == k + 1 then n.addr else NodeAt(head, free, OldPos(k, p))
    {
    }
    forall p, q | 0 <= p <= |free'| && 0 <= q <= |free'| && p != q
      ensures || NodeAt(head, free', p) + BIG_HEADER <= NodeAt(head, free', q)
              || NodeAt(head, free', q) + BIG_HEADER <= NodeAt(head, free', p)
    {
      if p != k + 1 && q != k + 1 {
        assert OldPos(k, p) != OldPos(k, q);
      }
    }
  }

  lemma InsertedTallest(free: seq<FreeNode>, k: nat, n: FreeNode, h: nat)
    requires k <= |free| && Tallest(free, h)
    ensures Tallest(InsertAt(free, k, n), if n.height > h then n.height else h)
  {
    var free' := InsertAt(free, k, n);
    if n.height > h {
      assert free'[k].height == n.height;
    } else if h > 0 {
      var t :| 0 <= t < |free| && free[t].height == h;
      assert free'[if t < k then t else t + 1].height == h;
    }
  }

  lemma InsertedSizes(m0: Memory, m: Memory, head: int, free: seq<FreeNode>, k: nat, n: FreeNode)
    requires k <= |free| && Sizes(m0, free) && Rd(m0, n.addr + 8) == n.size
    requires Spaced(head, InsertAt(free, k, n)) && OnlyTowers(m0, m, head, InsertAt(free, k, n))
    ensures Sizes(m, InsertAt(free, k, n))
  {
    SizesKept(m0, m, head, InsertAt(free, k, n));
  }

  lemma InsertParts(m0: Memory, m: Memory, head: int, level: int, free: seq<FreeNode>, n: FreeNode)
    requires ListParts(m0, head, level, free) && Clear(head, free, n.addr) && n.height <= MAX_LEVEL
    requires Rd(m0, n.addr + 8) == n.size
    requires PartlyLinked(m, head, free, n.addr, LowerBound(free, n.size), n.height + 1)
    requires OnlyTowers(m0, m, head, Inserted(free, n))
    ensures ListParts(m, head, if n.height > level then n.height else level, Inserted(free, n))
  {
    var k := LowerBound(free, n.size);
    InsertLinked(m, head, free, k, n);
    InsertedSpaced(head, free, k, n);
    InsertedTallest(free, k, n, level);
    InsertedSorted(free, n);
    InsertedSizes(m0, m, head, free, k, n);
  }

  // Everything LinkLevel writes lies in the towers of the grown list.
  lemma LinkFrame(m0: Memory, m: Memory, head: int, free: seq<FreeNode>, n: FreeNode, i: nat)
    requires i <= MAX_LEVEL && 0 <= n.addr < 0x1_0000_0000
    requires OnlyTowers(m0, m, head, Inserted(free, n))
    ensures OnlyTowers(m0, LinkLevel(m, n.addr, NodeAt(head, free, PrevPos(free, i, LowerBound(free, n.size))), i),
                       head, Inserted(free, n))
  {
    var k, free' := LowerBound(free, n.size), Inserted(free, n);
    var prev := PrevPos(free, i, k);
    assert NodeAt(head, free', prev) == NodeAt(head, free, prev);
    assert NodeAt(head, free', k + 1) == n.addr;
    assert InTower(head, free', Slot(n.addr, i)) && InTower(head, free', Slot(NodeAt(head, free, prev), i));
  }

  // One round of the deletion loop at a level that free[k] reaches.
  function UnlinkLevel(m: Memory, v: int, prev: int, i: nat): Memory {
    m[Slot(prev, i) := Rd(m, Slot(v, i))]
  }

  lemma UnlinkStep(m: Memory, head: int, free: seq<FreeNode>, k: nat, i: nat)
    requires Spaced(head, free) && k < |free| && i <= free[k].height <= MAX_LEVEL
    requires PartlyUnlinked(m, head, free, k, i)
    ensures Rd(m, Slot(NodeAt(head, free, PrevPos(free, i, k)), i)) == free[k].addr
    ensures PartlyUnlinked(UnlinkLevel(m, free[k].addr, NodeAt(head, free, PrevPos(free, i, k)), i),
                           head, free, k, i + 1)
  {
    var prev := PrevPos(free, i, k);
    var m' := UnlinkLevel(m, free[k].addr, NodeAt(head, free, prev), i);
    NextIdxUnique(free, i, prev, k);
    forall p, t | 0 <= p <= |free| && 0 <= t <= MAX_LEVEL && Reaches(free, p, t)
      ensures Rd(m', Slot(NodeAt(head, free, p), t)) ==
              if t < i + 1 && p == PrevPos(free, t, k) then AddrAt(free, NextIdx(free, t, k + 1))
              else AddrAt(free, NextIdx(free, t, p))
    {
      SlotsApart(head, free, p, t, prev, i);
      assert NodeAt(head, free, k + 1) == free[k].addr && Reaches(free, k + 1, i);
    }
  }

  // The deletion loop stops at the first level above the tower.
  lemma UnlinkStops(m: Memory, head: int, free: seq<FreeNode>, k: nat, i: nat, p: nat)
    requires Spaced(head, free) && k < |free| && free[k].height < i <= MAX_LEVEL
    requires p <= |free| && Rd(m, Slot(NodeAt(head, free, p), i)) == AddrAt(free, NextIdx(free, i, p))
    ensures Rd(m, Slot(NodeAt(head, free, p), i)) != free[k].addr
  {
    var q := NextIdx(free, i, p);
    assert NodeAt(head, free, k + 1) == free[k].addr;
    if q < |free| { assert q != k && NodeAt(head, free, q + 1) == free[q].addr; }
  }

  // A later block of the same size is not what its predecessors point to, so
  // the deletion loop stops at once and unlinks nothing.
  lemma LaterNodeNotFound(m: Memory, head: int, free: seq<FreeNode>, k: nat)
    requires Spaced(head, free) && Linked(m, head, free) && k < |free| && LowerBound(free, free[k].size) < k
    ensures Rd(m, Slot(NodeAt(head, free, PrevPos(free, 0, LowerBound(free, free[k].size))), 0)) != free[k].addr
  {
    var j := LowerBound(free, free[k].size);
    assert PrevPos(free, 0, j) == j && NextIdx(free, 0, j) == j;
    assert NodeAt(head, free, j + 1) == free[j].addr && NodeAt(head, free, k + 1) == free[k].addr;
  }

  lemma UnlinkRound(m: Memory, head: int, free: seq<FreeNode>, k: nat, i: nat)
    requires Spaced(head, free) && k < |free| && free[k].height <= MAX_LEVEL && i <= MAX_LEVEL
    requires i <= free[k].height + 1 && PartlyUnlinked(m, head, free, k, i)
    ensures Rd(m, Slot(NodeAt(head, free, PrevPos(free, i, k)), i)) == free[k].addr <==> i <= free[k].height
    ensures i <= free[k].height ==>
              PartlyUnlinked(UnlinkLevel(m, free[k].addr, NodeAt(head, free, PrevPos(free, i, k)), i),
                             head, free, k, i + 1)
  {
    if i <= free[k].height {
      UnlinkStep(m, head, free, k, i);
    } else {
      assert Reaches(free, PrevPos(free, i, k), i);
      UnlinkStops(m, head, free, k, i, PrevPos(free, i, k));
    }
  }

  lemma UnlinkFrame(m0: Memory, m: Memory, head: int, free: seq<FreeNode>, v: int, k: nat, i: nat)
    requires i <= MAX_LEVEL && k <= |free| && OnlyTowers(m0, m, head, free)
    ensures OnlyTowers(m0, UnlinkLevel(m, v, NodeAt(head, free, PrevPos(free, i, k)), i), head, free)
  {
    assert InTower(head, free, Slot(NodeAt(head, free, PrevPos(free, i, k)), i));
  }

  lemma RemovedSpaced(head: int, free: seq<FreeNode>, k: nat)
    requires Spaced(head, free) && k < |free|
    ensures Spaced(head, Removed(free, k))
  {
    var free' := Removed(free, k);
    forall p | 0 <= p <= |free'|
      ensures NodeAt(head, free', p) == NodeAt(head, free, if p <= k then p else p + 1)
    {
    }
  }

  lemma RemovedSizes(m0: Memory, m: Memory, head: int, free: seq<FreeNode>, k: nat)
    requires k < |free| && Spaced(head, free) && Sizes(m0, free) && OnlyTowers(m0, m, head, free)
    ensures Sizes(m, Removed(free, k))
  {
    SizesKept(m0, m, head, free);
  }

  lemma RemovedHeights(free: seq<FreeNode>, k: nat)
    requires k < |free| && Sorted(free) && Heights(free)
    ensures Sorted(Removed(free, k)) && Heights(Removed(free, k))
  {
  }

  lemma RemovedBelow(free: seq<FreeNode>, k: nat, h: nat)
    requires k < |free| && Tallest(free, h)
    ensures forall t :: 0 <= t < |Removed(free, k)| ==> Removed(free, k)[t].height <= h
  {
  }

  // A list but for its level, which no tower exceeds.
  ghost predicate Unlevelled(m: Memory, head: int, level: int, free: seq<FreeNode>) {
    && Sorted(free) && Heights(free) && Spaced(head, free) && Sizes(m, free) && Linked(m, head, free)
    && 0 <= level <= MAX_LEVEL && forall t :: 0 <= t < |free| ==> free[t].height <= level
  }

  // What an unlinked block leaves, or one that could not be unlinked.
  lemma RemovedParts(m0: Memory, m: Memory, head: int, level: int, free: seq<FreeNode>, k: nat)
    requires ListParts(m0, head, level, free) && k < |free| && OnlyTowers(m0, m, head, free)
    requires k == LowerBound(free, free[k].size) ==> PartlyUnlinked(m, head, free, k, free[k].height + 1)
    requires k != LowerBound(free, free[k].size) ==> m == m0
    ensures Unlevelled(m, head, level, if k == LowerBound(free, free[k].size) then Removed(free, k) else free)
  {
    if k == LowerBound(free, free[k].size) {
      RemoveLinked(m, head, free, k);
      RemovedSpaced(head, free, k);
      RemovedSizes(m0, m, head, free, k);
      RemovedHeights(free, k);
      RemovedBelow(free, k, level);
    }
  }

  // Lowering the level past every empty chain finds the tallest tower.
  lemma LevelStep(m: Memory, head: int, free: seq<FreeNode>, h: nat)
    requires Linked(m, head, free) && Spaced(head, free) && h <= MAX_LEVEL
    requires forall t :: 0 <= t < |free| ==> free[t].height <= h
    ensures h > 0 && Rd(m, Slot(head, h)) == 0 ==> forall t :: 0 <= t < |free| ==> free[t].height <= h - 1
    ensures !(h > 0 && Rd(m, Slot(head, h)) == 0) ==> Tallest(free, h)
  {
    var q := NextIdx(free, h, 0);
    assert Rd(m, Slot(NodeAt(head, free, 0), h)) == AddrAt(free, q);
    if q < |free| { assert NodeAt(head, free, q + 1) == free[q].addr; }
  }

  // What the walk on level i sees from position p.
  lemma WalkStep(m: Memory, head: int, level: int, free: seq<FreeNode>, size: int, i: nat, p: nat, next: int)
    requires ListParts(m, head, level, free) && i <= MAX_LEVEL
    requires p <= LowerBound(free, size) && Reaches(free, p, i)
    requires next == Rd(m, Slot(NodeAt(head, free, p), i))
    ensures next != 0 && Rd(m, next + 8) < size ==>
              var q := NextIdx(free, i, p);
              q < LowerBound(free, size) && next == NodeAt(head, free, q + 1) && Reaches(free, q + 1, i)
    ensures !(next != 0 && Rd(m, next + 8) < size) ==> PrevPos(free, i, LowerBound(free, size)) == p
  {
    var k, q := LowerBound(free, size), NextIdx(free, i, p);
    assert next == AddrAt(free, q);
    if q < |free| {
      assert NodeAt(head, free, q + 1) == next;
      assert Rd(m, next + 8) == free[q].size;
      if k <= q { assert free[k].size <= free[q].size; }
    }
    if k <= q { PrevPosUnique(free, i, k, p); }
  }

  // The list head together with the blocks chained behind it.
  class BigBins {
    const head: int
    const ram: Ram
    var level: int
    ghost var free: seq<FreeNode>

    ghost predicate Valid()
      reads this, ram
    {
      ListOk(ram.m, head, level, free)
    }

    constructor (ram: Ram, head: int)
      requires head > 0 && forall i :: 0 <= i <= MAX_LEVEL ==> Rd(ram.m, Slot(head, i)) == 0
      ensures this.ram == ram && this.head == head && free == [] && Valid()
    {
      this.ram, this.head := ram, head;
      level, free := 0, [];
      new;
      ListFold(ram.m, head, level, free);
    }

    // Walk right on level i while the next block is smaller than `size`.
    method Walk(size: int, i: nat, start: int, ghost p: nat) returns (node: int)
      requires ListParts(ram.m, head, level, free) && i <= MAX_LEVEL
      requires p <= LowerBound(free, size) && Reaches(free, p, i) && start == NodeAt(head, free, p)
      ensures node == NodeAt(head, free, PrevPos(free, i, LowerBound(free, size)))
    {
      ghost var q := p;
      node := start;
      var next := Rd(ram.m, Slot(node, i));
      while next != 0 && Rd(ram.m, next + 8) < size
        invariant q <= LowerBound(free, size) && node == NodeAt(head, free, q) && Reaches(free, q, i)
        invariant next == Rd(ram.m, Slot(node, i))
        decreases |free| - q
      {
        WalkStep(ram.m, head, level, free, size, i, q, next);
        node, q := next, NextIdx(free, i, q) + 1;
        next := Rd(ram.m, Slot(node, i));
      }
      WalkStep(ram.m, head, level, free, size, i, q, next);
    }

    // The descent shared by search, insertion and deletion: walk each level,
    // highest first, from where the level above stopped.
    method Descend(size: int) returns (node: int, update: seq<int>)
      requires Valid()
      ensures node == NodeAt(head, free, LowerBound(free, size))
      ensures |update| == MAX_LEVEL + 1 > level
      ensures forall i :: 0 <= i <= level ==>
                update[i] == NodeAt(head, free, PrevPos(free, i, LowerBound(free, size)))
    {
      ListUnfold(ram.m, head, level, free);
      ghost var k := LowerBound(free, size);
      ghost var p: nat := 0;
      node := head;
      update := seq(MAX_LEVEL + 1, _ => 0);
      var i := level;
      while i >= 0
        invariant -1 <= i <= level <= MAX_LEVEL && |update| == MAX_LEVEL + 1
        invariant p <= k && node == NodeAt(head, free, p) && Reaches(free, p, i)
        invariant i < 0 ==> p == k
        invariant forall t :: i < t <= level ==> update[t] == NodeAt(head, free, PrevPos(free, t, k))
      {
        node := Walk(size, i, node, p);
        p := PrevPos(free, i, k);
        update := update[i := node];
        i := i - 1;
      }
    }

    // The smallest block of at least `size` bytes, the first of its size, or NULL.
    method FindBest(size: int) returns (node: int)
      requires Valid()
      ensures node == AddrAt(free, LowerBound(free, size))
    {
      ListUnfold(ram.m, head, level, free);
      var update;
      node, update := Descend(size);
      node := Rd(ram.m, Slot(node, 0));
    }

    // A tower height: one more level for every coin that comes up, at most six.
    method RandomLevel() returns (levels: nat)
      ensures levels <= MAX_LEVEL
    {
      levels := 0;
      var coin: bool := *;
      while coin && levels < MAX_LEVEL
        invariant levels <= MAX_LEVEL
        decreases MAX_LEVEL - levels
      {
        levels := levels + 1;
        coin := *;
      }
    }

    // Above the old top level the list head precedes every position.
    method RaiseLevel(levels: nat, update0: seq<int>, ghost k: nat) returns (update: seq<int>)
      requires level < levels <= MAX_LEVEL && |update0| == MAX_LEVEL + 1 && k <= |free|
      requires level >= 0 && Tallest(free, level)
      requires forall t :: 0 <= t <= level ==> update0[t] == NodeAt(head, free, PrevPos(free, t, k))
      modifies this`level
      ensures level == levels && |update| == MAX_LEVEL + 1
      ensures forall t :: 0 <= t <= level ==> update[t] == NodeAt(head, free, PrevPos(free, t, k))
    {
      update := update0;
      for i := level + 1 to levels + 1
        invariant |update| == MAX_LEVEL + 1
        invariant forall t :: 0 <= t < i ==> update[t] == NodeAt(head, free, PrevPos(free, t, k))
      {
        PrevPosUnique(free, i, k, 0);
        update := update[i := head];
      }
      level := levels;
    }

    method LinkIn(levels: nat, update: seq<int>, ghost k: nat, ghost n: FreeNode, value: int)
      requires levels <= MAX_LEVEL && |update| == MAX_LEVEL + 1
      requires k == LowerBound(free, n.size) && n.addr == value && n.height == levels
      requires Spaced(head, free) && Clear(head, free, value) && Linked(ram.m, head, free)
      requires forall t :: 0 <= t <= levels ==> update[t] == NodeAt(head, free, PrevPos(free, t, k))
      modifies ram
      ensures PartlyLinked(ram.m, head, free, value, k, levels + 1)
      ensures OnlyTowers(old(ram.m), ram.m, head, Inserted(free, n))
    {
      for i := 0 to levels + 1
        invariant PartlyLinked(ram.m, head, free, value, k, i)
        invariant OnlyTowers(old(ram.m), ram.m, head, Inserted(free, n))
      {
        LinkStep(ram.m, head, free, value, k, i);
        LinkFrame(old(ram.m), ram.m, head, free, n, i);
        ram.Store(Slot(value, i), Rd(ram.m, Slot(update[i], i)));
        ram.Store(Slot(update[i], i), value);
      }
    }

    // Insert a block under a tower of random height, before all blocks of equal
    // or greater size.
    method Insert(value: int) returns (ghost height: nat)
      requires Valid() && Clear(head, free, value)
      modifies this, ram
      ensures Valid() && height <= MAX_LEVEL
      ensures free == Inserted(old(free), FreeNode(value, Rd(old(ram.m), value + 8), height))
      ensures OnlyTowers(old(ram.m), ram.m, head, free)
    {
      ListUnfold(ram.m, head, level, free);
      var size := Rd(ram.m, value + 8);
      var node, update := Descend(size);
      node := Rd(ram.m, Slot(node, 0));
      assert node != value by { FirstIsNot(size, value); }
      if node != value {
        var levels := RandomLevel();
        height := levels;
        ghost var k, n, m0, level0 := LowerBound(free, size), FreeNode(value, size, height), ram.m, level;
        if levels > level {
          update := RaiseLevel(levels, update, k);
        }
        LinkIn(levels, update, k, n, value);
        InsertParts(m0, ram.m, head, level0, free, n);
        free := Inserted(free, n);
        ListFold(ram.m, head, level, free);
      }
    }

    lemma FirstIsNot(size: int, value: int)
      requires ListParts(ram.m, head, level, free) && Clear(head, free, value)
      ensures Rd(ram.m, Slot(NodeAt(head, free, LowerBound(free, size)), 0)) != value
    {
      var k := LowerBound(free, size);
      assert NextIdx(free, 0, k) == k;
      if k < |free| { assert NodeAt(head, free, k + 1) == free[k].addr; }
    }

    // Unlink a block that is on the list. The predecessors are those of the
    // first block of its size, so nothing happens unless it is that block.
    method Delete(value: int, ghost k: nat)
      requires Valid() && k < |free| && free[k].addr == value
      modifies this, ram
      ensures Valid()
      ensures k == LowerBound(old(free), old(free)[k].size) ==> free == Removed(old(free), k)
      ensures k != LowerBound(old(free), old(free)[k].size) ==>
                free == old(free) && ram.m == old(ram.m) && level == old(level)
      ensures OnlyTowers(old(ram.m), ram.m, head, old(free))
    {
      assert ListHolds(Level, ram.m, head, level, free);
      assert Rd(ram.m, value + 8) == free[k].size by { assert ListHolds(Sized, ram.m, head, level, free); }
      var size := Rd(ram.m, value + 8);
      var node, update := Descend(size);
      node := FindNode(node, value, k);
      Remove(value, update, k);
      LowerLevel();
    }

    // The block leaves the list if its predecessors are among update; the level
    // is not lowered yet.
    method Remove(value: int, update: seq<int>, ghost k: nat)
      requires Valid() && k < |free| && free[k].addr == value
      requires |update| == MAX_LEVEL + 1 > level
      requires forall i :: 0 <= i <= level ==>
                 update[i] == NodeAt(head, free, PrevPos(free, i, LowerBound(free, free[k].size)))
      modifies this`free, ram
      ensures OnlyTowers(old(ram.m), ram.m, head, old(free))
      ensures free == if k == LowerBound(old(free), old(free)[k].size) then Removed(old(free), k) else old(free)
      ensures k != LowerBound(old(free), old(free)[k].size) ==> ram.m == old(ram.m)
      ensures Unlevelled(ram.m, head, level, free)
    {
      ListUnfold(ram.m, head, level, free);
      ghost var m0 := ram.m;
      assert free[k].height <= level <= MAX_LEVEL;
      Unlink(value, update, k);
      RemovedParts(m0, ram.m, head, level, free, k);
      free := if k == LowerBound(free, free[k].size) then Removed(free, k) else free;
    }

    // The linear walk to the block itself; it does not touch update[].
    method FindNode(start: int, value: int, ghost k: nat) returns (node: int)
      requires Valid() && k < |free| && free[k].addr == value
      requires start == NodeAt(head, free, LowerBound(free, free[k].size))
      ensures node == value
    {
      ListUnfold(ram.m, head, level, free);
      ghost var q := LowerBound(free, free[k].size);
      node := Rd(ram.m, Slot(start, 0));
      while node != value
        invariant q <= k && node == AddrAt(free, q)
        decreases k - q
      {
        assert NodeAt(head, free, q + 1) == node && NextIdx(free, 0, q + 1) == q + 1;
        node, q := Rd(ram.m, Slot(node, 0)), q + 1;
      }
    }

    method Unlink(value: int, update: seq<int>, ghost k: nat)
      requires Spaced(head, free) && Linked(ram.m, head, free)
      requires k < |free| && free[k].addr == value && free[k].height <= level <= MAX_LEVEL
      requires |update| == MAX_LEVEL + 1
      requires forall i :: 0 <= i <= level ==>
                 update[i] == NodeAt(head, free, PrevPos(free, i, LowerBound(free, free[k].size)))
      modifies ram
      ensures OnlyTowers(old(ram.m), ram.m, head, free)
      ensures k == LowerBound(free, free[k].size) ==> PartlyUnlinked(ram.m, head, free, k, free[k].height + 1)
      ensures k != LowerBound(free, free[k].size) ==> ram.m == old(ram.m)
    {
      ghost var j := LowerBound(free, free[k].size);
      ghost var m0 := ram.m;
      var i := 0;
      while i <= level && Rd(ram.m, Slot(update[i], i)) == value
        invariant 0 <= i <= level + 1
        invariant OnlyTowers(m0, ram.m, head, free)
        invariant j != k ==> i == 0 && ram.m == m0
        invariant j == k ==> i <= free[k].height + 1 && PartlyUnlinked(ram.m, head, free, k, i)
      {
        assert j == k by {
          if j != k { LaterNodeNotFound(ram.m, head, free, k); }
        }
        UnlinkRound(ram.m, head, free, k, i);
        UnlinkFrame(m0, ram.m, head, free, value, k, i);
        ram.Store(Slot(update[i], i), Rd(ram.m, Slot(value, i)));
        i := i + 1;
      }
      if j == k && i <= level { UnlinkRound(ram.m, head, free, k, i); }
    }

    // Lower the level past the chains that have become empty.
    method LowerLevel()
      requires Unlevelled(ram.m, head, level, free)
      modifies this`level
      ensures Valid()
      ensures old(Tallest(free, level)) ==> level == old(level)
    {
      while level > 0 && Rd(ram.m, Slot(head, level)) == 0
        invariant 0 <= level <= old(level)
        invariant forall t :: 0 <= t < |free| ==> free[t].height <= level
      {
        LevelStep(ram.m, head, free, level);
        level := level - 1;
      }
      LevelStep(ram.m, head, free, level);
      ListFold(ram.m, head, level, free);
    }
  }
}
