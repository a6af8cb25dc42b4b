// The allocator's state word by word: what stands at which address of a memory that
// represents it.
module HeapWords {
  import opened RamModel
  import opened SizeClasses
  import opened SkipLists
  import opened HeapState
  import opened HeapInvariant
  import opened HeapMemory
  import opened HeapTheorems
  import opened TableClears

  // What follows element i of a list, 0 behind the last.
  function Following(s: seq<int>, i: int): int {
    if 0 <= i + 1 < |s| then s[i + 1] else 0
  }

  lemma {:induction false} ChainWords(m: Memory, first: int, s: seq<int>)
    requires Chain(m, first, s)
    ensures first == Following(s, -1)
    ensures forall i :: 0 <= i < |s| ==> Rd(m, s[i]) == Following(s, i)
  {
    forall i | 0 <= i < |s| ensures Rd(m, s[i]) == Following(s, i) { ChainLink(m, first, s, i); }
  }

  // A slab has its bin at 8, the magic number at 12 and its first free cell at 4;
  // each free cell holds the next.
  lemma SlabWords(m: Memory, r: Roots, g: State, a: int)
    requires Inv(g) && Represents(m, r, g) && a in g.kind && g.kind[a].Slab?
    ensures Rd(m, a + 8) == g.kind[a].bucket && Rd(m, a + 12) == 0xDEFAD00D
    ensures a in g.stacks && Rd(m, a + 4) == Following(g.stacks[a], -1)
    ensures forall i :: 0 <= i < |g.stacks[a]| ==> Rd(m, g.stacks[a][i]) == Following(g.stacks[a], i)
  {
    assert Holds(Slabs, g) && Fits(Headers, m, r, g) && Fits(Stacks, m, r, g);
    ChainWords(m, Rd(m, a + 4), g.stacks[a]);
  }

  // A bin points to its first slab, and each slab, at 0, to the next.
  lemma BinWords(m: Memory, r: Roots, g: State, k: nat)
    requires Represents(m, r, g) && k < |g.bins|
    ensures |r.heads| == |g.bins| && r.heads[k] == Following(g.bins[k], -1)
    ensures forall i :: 0 <= i < |g.bins[k]| ==> Rd(m, g.bins[k][i]) == Following(g.bins[k], i)
  {
    assert Fits(Lists, m, r, g);
    ChainWords(m, r.heads[k], g.bins[k]);
  }

  // A big block has its capacity at 8 and the magic number at 12; at 4, while it is
  // free, the space behind the header, whose first word is then 0.
  lemma BlockWords(m: Memory, r: Roots, g: State, a: int)
    requires Inv(g) && Represents(m, r, g) && a in g.kind && g.kind[a].Big?
    ensures Rd(m, a + 8) == g.kind[a].pages * 4096 - 48 && Rd(m, a + 12) == 0xDEFAD00D
    ensures a in g.user && (if g.user[a] == 0 then Rd(m, a + 4) == a + 48 && Rd(m, a + 48) == 0 else Rd(m, a + 4) == 0)
  {
    assert Holds(Bigs, g) && Fits(Headers, m, r, g) && Fits(BigHeads, m, r, g);
  }

  // The big blocks by address: each points to the next at 0 and to the previous at
  // 16, and the newest is the last.
  lemma NeighbourWords(m: Memory, r: Roots, g: State) returns (s: seq<int>)
    requires Inv(g) && Represents(m, r, g)
    ensures forall a :: a in s <==> a in g.kind && g.kind[a].Big?
    ensures forall i, j :: 0 <= i < j < |s| ==> s[i] < s[j]
    ensures r.newest == if s == [] then 0 else s[|s| - 1]
    ensures forall i :: 0 <= i < |s| ==> Rd(m, s[i]) == Following(s, i)
    ensures forall i :: 0 <= i < |s| ==> Rd(m, s[i] + 16) == if i == 0 then 0 else s[i - 1]
  {
    s := BigBlocks(g.order, g.kind);
    assert Holds(Tiles, g) && Fits(Neighbours, m, r, g);
    BigBlocksAscend(g, |g.order|);
    assert g.order[..|g.order|] == g.order;
    forall a ensures a in s <==> a in g.kind && g.kind[a].Big? { BigBlocksListed(g.order, g.kind, a); }
    forall i | 0 <= i < |s|
      ensures Rd(m, s[i]) == Following(s, i) && Rd(m, s[i] + 16) == if i == 0 then 0 else s[i - 1]
    {
      assert Rd(m, s[i] + 16) == PrevOf(s, i) && Rd(m, s[i]) == NextOf(s, i);
    }
  }

  // Level i of a tower of height i or more points, at 20 + 4 * i, to the next one that
  // high, or to nothing when there is none.
  lemma TowerWords(m: Memory, head: int, level: int, free: seq<FreeNode>, i: nat, j: int) returns (q: nat)
    requires ListOk(m, head, level, free) && i <= 6 && -1 <= j < |free| && (j >= 0 ==> free[j].height >= i)
    ensures j < q <= |free| && forall t :: j < t < q ==> free[t].height < i
    ensures q < |free| ==> free[q].height >= i
    ensures Rd(m, (if j < 0 then head else free[j].addr) + 20 + 4 * i) == if q < |free| then free[q].addr else 0
  {
    ListUnfold(m, head, level, free);
    q := NextIdx(free, i, j + 1);
    assert Reaches(free, j + 1, i);
  }
}
