// The skip list read level by level: following forward[i] from the head visits
// exactly the towers that reach level i, in order of size, each level a
// subsequence of the one below it.
module SkipLevels {
  import opened RamModel
  import opened SkipLists

  // The nodes of free, from index j on, whose towers reach level i.
  function Level(free: seq<FreeNode>, i: int, j: nat): seq<FreeNode>
    requires j <= |free|
    decreases |free| - j
  {
    if j == |free| then []
    else if free[j].height >= i then [free[j]] + Level(free, i, j + 1)
    else Level(free, i, j + 1)
  }

  // Pointer p starts a NULL-terminated chain of level-i pointers through s.
  ghost predicate Follows(m: Memory, p: int, i: int, s: seq<FreeNode>)
    decreases |s|
  {
    if s == [] then p == 0
    else p == s[0].addr && p != 0 && Follows(m, Rd(m, Slot(p, i)), i, s[1..])
  }

  ghost predicate Subsequence(a: seq<FreeNode>, b: seq<FreeNode>)
    decreases |b|
  {
    a == [] || (b != [] && ((a[0] == b[0] && Subsequence(a[1..], b[1..])) || Subsequence(a, b[1..])))
  }

  lemma {:induction false} LevelFromNext(free: seq<FreeNode>, i: int, j: nat)
    requires j <= |free|
    ensures var q := NextIdx(free, i, j);
            Level(free, i, j) == if q == |free| then [] else [free[q]] + Level(free, i, q + 1)
    decreases |free| - j
  {
    if j < |free| && free[j].height < i { LevelFromNext(free, i, j + 1); }
  }

  lemma NodeLink(m: Memory, head: int, level: int, free: seq<FreeNode>, i: nat, p: nat)
    requires ListOk(m, head, level, free) && i <= MAX_LEVEL && p <= |free| && Reaches(free, p, i)
    ensures var q := NextIdx(free, i, p);
            && Rd(m, Slot(NodeAt(head, free, p), i)) == AddrAt(free, q)
            && (q < |free| ==>
                  free[q].addr != 0 && NodeAt(head, free, q + 1) == free[q].addr && Reaches(free, q + 1, i))
  {
    ListUnfold(m, head, level, free);
    var q := NextIdx(free, i, p);
    if q < |free| { assert NodeAt(head, free, q + 1) > 0; }
  }

  // Each level's chain in memory is exactly the towers that reach it.
  lemma {:induction false} ChainOfLevel(m: Memory, head: int, level: int, free: seq<FreeNode>, i: nat, p: nat)
    requires ListOk(m, head, level, free) && i <= MAX_LEVEL && p <= |free| && Reaches(free, p, i)
    ensures Follows(m, Rd(m, Slot(NodeAt(head, free, p), i)), i, Level(free, i, p))
    decreases |free| - p
  {
    NodeLink(m, head, level, free, i, p);
    LevelFromNext(free, i, p);
    var q := NextIdx(free, i, p);
    if q < |free| {
      ChainOfLevel(m, head, level, free, i, q + 1);
      assert ([free[q]] + Level(free, i, q + 1))[1..] == Level(free, i, q + 1);
    }
  }

  // A tower on one level is on every level below it.
  lemma {:induction false} LevelsNest(free: seq<FreeNode>, i: nat, j: nat)
    requires j <= |free|
    ensures Subsequence(Level(free, i + 1, j), Level(free, i, j))
    decreases |free| - j
  {
    if j < |free| {
      LevelsNest(free, i, j + 1);
      var upper, lower := Level(free, i + 1, j + 1), Level(free, i, j + 1);
      if free[j].height >= i {
        assert ([free[j]] + lower)[1..] == lower;
        if free[j].height >= i + 1 { assert ([free[j]] + upper)[1..] == upper; }
      }
    }
  }

  lemma {:induction false} LevelMembers(free: seq<FreeNode>, i: int, j: nat, n: FreeNode)
    requires j <= |free|
    ensures n in Level(free, i, j) <==> n.height >= i && n in free[j..]
    decreases |free| - j
  {
    if j < |free| {
      LevelMembers(free, i, j + 1, n);
      assert free[j..] == [free[j]] + free[j + 1..];
    }
  }

  lemma {:induction false} LevelSorted(free: seq<FreeNode>, i: int, j: nat)
    requires j <= |free| && Sorted(free)
    ensures Sorted(Level(free, i, j))
    ensures forall n :: n in Level(free, i, j) ==> j < |free| && free[j].size <= n.size
    decreases |free| - j
  {
    if j < |free| {
      LevelSorted(free, i, j + 1);
      var rest := Level(free, i, j + 1);
      assert forall n :: n in rest ==> free[j].size <= free[j + 1].size <= n.size;
      assert forall k :: 0 <= k < |rest| ==> rest[k] in rest;
    }
  }

  lemma {:induction false} LevelZero(free: seq<FreeNode>, j: nat)
    requires j <= |free|
    ensures Level(free, 0, j) == free[j..]
    decreases |free| - j
  {
    if j < |free| { LevelZero(free, j + 1); }
  }

  // The shape of the list for every choice of tower heights: each level is a
  // sorted NULL-terminated chain of exactly the towers reaching it, level 0 holds
  // every block, each level is a subsequence of the one below, and a level has a
  // chain exactly up to `level`, the height of the tallest tower.
  lemma SkipListShape(m: Memory, head: int, level: int, free: seq<FreeNode>, i: nat)
    requires ListOk(m, head, level, free) && i <= MAX_LEVEL
    ensures Follows(m, Rd(m, Slot(head, i)), i, Level(free, i, 0))
    ensures Sorted(Level(free, i, 0)) && Level(free, 0, 0) == free
    ensures forall n :: n in Level(free, i, 0) <==> n in free && n.height >= i
    ensures Subsequence(Level(free, i + 1, 0), Level(free, i, 0))
    ensures i > level ==> Rd(m, Slot(head, i)) == 0
    ensures 0 < i <= level ==> Rd(m, Slot(head, i)) != 0
  {
    ListUnfold(m, head, level, free);
    assert NodeAt(head, free, 0) == head;
    ChainOfLevel(m, head, level, free, i, 0);
    LevelSorted(free, i, 0);
    LevelsNest(free, i, 0);
    LevelZero(free, 0);
    assert free[0..] == free;
    forall n ensures n in Level(free, i, 0) <==> n in free && n.height >= i { LevelMembers(free, i, 0, n); }
    var q := NextIdx(free, i, 0);
    assert Rd(m, Slot(head, i)) == AddrAt(free, q);
    if q < |free| { assert NodeAt(head, free, q + 1) == free[q].addr; }
  }
}
