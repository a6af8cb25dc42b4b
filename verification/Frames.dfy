// The bitmap of physical frames (paging.c): first fit, and what any sequence of
// allocations hands out.
module Frames {
  import opened Bits
  import RamModel

  // A page-table entry. `frame` 0 is also what an entry without a frame holds.
  datatype Page = Page(present: bool, rw: bool, user: bool, accessed: bool, dirty: bool, frame: nat)

  const NO_PAGE := Page(false, false, false, false, false, 0)

  // Frame f is bit f % 32 of word f / 32.
  predicate Taken(words: seq<nat>, f: nat)
    requires f < 32 * |words|
  {
    Bit(words[f / 32], f % 32)
  }

  lemma TakenIs(words: seq<nat>, f: nat)
    requires f < 32 * |words|
    ensures Taken(words, f) <==> words[f / 32] / Pow2(f % 32) % 2 == 1
  {
    BitIs(words[f / 32], f % 32);
  }

  // r is the lowest free frame, or -1 when every frame is taken.
  ghost predicate LowestFree(words: seq<nat>, r: int) {
    if r == -1 then forall f :: 0 <= f < 32 * |words| ==> Taken(words, f)
    else 0 <= r < 32 * |words| && !Taken(words, r) && forall f :: 0 <= f < r ==> Taken(words, f)
  }

  // Exactly the frames below n are taken.
  ghost predicate TakenBelow(words: seq<nat>, n: nat) {
    n <= 32 * |words| && forall f :: 0 <= f < 32 * |words| ==> (Taken(words, f) <==> f < n)
  }

  lemma LowestIsNext(words: seq<nat>, n: nat, r: int)
    requires TakenBelow(words, n) && LowestFree(words, r)
    ensures r == if n < 32 * |words| then n else -1
  {
    if n < 32 * |words| {
      assert !Taken(words, n);
      if r > n { assert false; }
    }
  }

  ghost predicate WordsOk(words: seq<nat>) {
    forall i :: 0 <= i < |words| ==> words[i] < Pow2(32)
  }

  lemma FrameOfBit(i: nat, j: nat)
    requires j < 32
    ensures (32 * i + j) / 32 == i && (32 * i + j) % 32 == j
  {
  }

  // The words before word i are full and so are its first j bits.
  lemma BitsTaken(words: seq<nat>, i: nat, j: nat)
    requires i < |words| && j <= 32 && AllBits(words[i], j)
    requires forall f :: 0 <= f < 32 * i ==> Taken(words, f)
    ensures forall f :: 0 <= f < 32 * i + j ==> Taken(words, f)
    ensures j < 32 ==> (Taken(words, 32 * i + j) <==> Bit(words[i], j))
  {
    forall f | 32 * i <= f < 32 * i + j ensures Taken(words, f) {
      FrameOfBit(i, f - 32 * i);
      assert Bit(words[i], f - 32 * i);
    }
    if j < 32 { FrameOfBit(i, j); }
  }

  // ----- The bitmap at the start -----

  // memset is given the number of words for the number of bytes to clear, so of
  // word i it clears this many bytes.
  function BytesCleared(words: nat, i: nat): (c: nat)
    ensures c <= 4
  {
    if 4 * i + 4 <= words then 4 else if 4 * i < words then words - 4 * i else 0
  }

  // What is left of the memory there, the low bytes of a word coming first.
  function LeftOver(before: seq<nat>, i: nat): (w: nat)
    requires i < |before|
    ensures w <= before[i]
  {
    before[i] - before[i] % Pow2(8 * BytesCleared(|before|, i))
  }

  // The word that four bytes make.
  function FourBytes(m: RamModel.Memory, x: int): (w: nat)
    ensures w < 0x1_0000_0000
  {
    RamModel.ByteAt(m, x) + 0x100 * RamModel.ByteAt(m, x + 1)
    + 0x1_0000 * RamModel.ByteAt(m, x + 2) + 0x100_0000 * RamModel.ByteAt(m, x + 3)
  }

  lemma AlignedWord(m: RamModel.Memory, x: int)
    requires x % 4 == 0
    ensures FourBytes(m, x) == RamModel.Rd(m, x)
  {
    RamModel.LittleEndian(m, x);
  }

  // The low c bytes of a word cleared.
  lemma LowBytes(b0: RamModel.Byte, b1: RamModel.Byte, b2: RamModel.Byte, b3: RamModel.Byte, c: nat)
    requires c <= 4
    ensures var w := b0 + 0x100 * b1 + 0x1_0000 * b2 + 0x100_0000 * b3;
            w - w % Pow2(8 * c) == (if c > 0 then 0 else b0) + (if c > 1 then 0 else 0x100 * b1)
                                   + (if c > 2 then 0 else 0x1_0000 * b2) + (if c > 3 then 0 else 0x100_0000 * b3)
  {
    Pow2Bytes();
    if c == 4 { assert 8 * c == 32; } else if c == 3 { assert 8 * c == 24; }
    else if c == 2 { assert 8 * c == 16; } else if c == 1 { assert 8 * c == 8; } else { assert 8 * c == 0; }
  }

  // What is left over is what memset leaves behind when it is given the number of
  // words, wherever the bitmap lies.
  lemma LeftOverIsFilled(m: RamModel.Memory, p: int, before: seq<nat>, i: nat)
    requires i < |before| && before[i] == FourBytes(m, p + 4 * i)
    ensures LeftOver(before, i) == FourBytes(RamModel.Filled(m, p, 0, |before|), p + 4 * i)
  {
    var x, c := p + 4 * i, BytesCleared(|before|, i);
    RamModel.FilledBytes(m, p, 0, |before|, x);
    RamModel.FilledBytes(m, p, 0, |before|, x + 1);
    RamModel.FilledBytes(m, p, 0, |before|, x + 2);
    RamModel.FilledBytes(m, p, 0, |before|, x + 3);
    LowBytes(RamModel.ByteAt(m, x), RamModel.ByteAt(m, x + 1), RamModel.ByteAt(m, x + 2), RamModel.ByteAt(m, x + 3), c);
  }

  // Only zeros are.
  ghost predicate Blank(before: seq<nat>) {
    forall i :: 0 <= i < |before| ==> LeftOver(before, i) == 0
  }

  // Then, and only then, every frame is free.
  lemma FreeIfBlank(before: seq<nat>, words: seq<nat>)
    requires WordsOk(words) && |words| == |before| && forall i :: 0 <= i < |words| ==> words[i] == LeftOver(before, i)
    ensures TakenBelow(words, 0) <==> Blank(before)
  {
    if TakenBelow(words, 0) {
      forall i | 0 <= i < |words| ensures words[i] == 0 {
        forall j | 0 <= j < 32 ensures !Bit(words[i], j) {
          FrameOfBit(i, j);
          assert !Taken(words, 32 * i + j);
        }
        AllZeros(words[i], 32);
      }
    }
    if Blank(before) {
      forall f | 0 <= f < 32 * |words| ensures !Taken(words, f) {
        assert words[f / 32] == 0;
        ZeroHasNoBits(f % 32);
      }
    }
  }

  // A run of allocations: ws[i] is the bitmap before allocation i, which takes the
  // lowest free frame fs[i].
  ghost predicate FirstFits(ws: seq<seq<nat>>, fs: seq<nat>) {
    && |ws| == |fs| + 1
    && forall i :: 0 <= i < |fs| ==> TakesLowest(ws[i], ws[i + 1], fs[i])
  }

  ghost predicate TakesLowest(w: seq<nat>, w': seq<nat>, f: nat) {
    && |w'| == |w| && f < 32 * |w| && LowestFree(w, f)
    && forall h :: 0 <= h < 32 * |w| ==> (Taken(w', h) <==> h == f || Taken(w, h))
  }

  // While allocation i hands out frame i, exactly those are taken besides the first.
  lemma {:induction false} TakenAfterward(ws: seq<seq<nat>>, fs: seq<nat>, i: nat)
    requires FirstFits(ws, fs) && i <= |fs| && forall k :: 0 <= k < i ==> fs[k] == k
    ensures |ws[i]| == |ws[0]|
    ensures forall h :: 0 <= h < 32 * |ws[0]| ==> (Taken(ws[i], h) <==> h < i || Taken(ws[0], h))
  {
    if i > 0 {
      TakenAfterward(ws, fs, i - 1);
      assert TakesLowest(ws[i - 1], ws[i - 1 + 1], fs[i - 1]);
    }
  }

  // First fit hands out frame k at allocation k, for the first n, exactly when the
  // first n frames are free at the start.
  lemma {:induction false} FramesInOrder(ws: seq<seq<nat>>, fs: seq<nat>, n: nat)
    requires FirstFits(ws, fs) && n <= |fs|
    ensures (forall k :: 0 <= k < n ==> fs[k] == k) <==>
            n <= 32 * |ws[0]| && forall f :: 0 <= f < n ==> !Taken(ws[0], f)
  {
    if n > 0 {
      FramesInOrder(ws, fs, n - 1);
      if forall k :: 0 <= k < n - 1 ==> fs[k] == k { NextInOrder(ws, fs, n - 1); }
    }
  }

  lemma NextInOrder(ws: seq<seq<nat>>, fs: seq<nat>, i: nat)
    requires FirstFits(ws, fs) && i < |fs| && forall k :: 0 <= k < i ==> fs[k] == k
    ensures fs[i] == i <==> i < 32 * |ws[0]| && !Taken(ws[0], i)
  {
    TakenAfterward(ws, fs, i);
    assert TakesLowest(ws[i], ws[i + 1], fs[i]);
    if i < 32 * |ws[0]| && !Taken(ws[0], i) {
      assert !Taken(ws[i], i);
    }
  }

  // ----- Taking a frame -----

  // Setting one bit of one word takes exactly that frame.
  lemma TakeFrame(words: seq<nat>, f: nat)
    requires WordsOk(words) && f < 32 * |words|
    ensures var words' := words[f / 32 := Or(words[f / 32], Pow2(f % 32))];
            && WordsOk(words')
            && forall h :: 0 <= h < 32 * |words| ==> (Taken(words', h) <==> h == f || Taken(words, h))
  {
    var words' := words[f / 32 := Or(words[f / 32], Pow2(f % 32))];
    Pow2Strict(f % 32, 32);
    OrBound(words[f / 32], Pow2(f % 32), 32);
    forall h | 0 <= h < 32 * |words| ensures Taken(words', h) <==> h == f || Taken(words, h) {
      OrBit(words[f / 32], Pow2(f % 32), h % 32);
      Pow2Bit(f % 32, h % 32);
    }
  }

  lemma Pow2Strict(a: nat, b: nat)
    requires a < b
    ensures Pow2(a) < Pow2(b)
  {
    Pow2Monotone(a + 1, b);
  }

  // ----- Runs of allocations -----

  // The entries of any family of tables, by table number.
  type Tables = map<int, seq<Page>>

  // One call of alloc_frame, on entry i of table t.
  datatype Call = Call(t: int, i: nat, isKernel: bool, isWriteable: bool)

  predicate IsEntry(v: Tables, t: int, i: int) {
    t in v && 0 <= i < |v[t]|
  }

  // The entry a call leaves behind when n frames are taken.
  function Allotted(page: Page, n: nat, total: nat, isKernel: bool, isWriteable: bool): Page {
    if page.frame != 0 || n >= total then page
    else page.(present := true, rw := isWriteable, user := !isKernel, frame := n)
  }

  function TakenAfter(page: Page, n: nat, total: nat): nat {
    if page.frame != 0 || n >= total then n else n + 1
  }

  // What a call leaves of the tables and of the number of frames handed out.
  function AfterAlloc(v: Tables, n: nat, total: nat, c: Call): (Tables, nat)
    requires IsEntry(v, c.t, c.i)
  {
    var page := v[c.t][c.i];
    (v[c.t := v[c.t][c.i := Allotted(page, n, total, c.isKernel, c.isWriteable)]], TakenAfter(page, n, total))
  }

  predicate CallsOk(calls: seq<Call>, v: Tables) {
    forall k :: 0 <= k < |calls| ==> IsEntry(v, calls[k].t, calls[k].i)
  }

  // The same tables with as many entries.
  ghost predicate SameShape(v: Tables, w: Tables) {
    v.Keys == w.Keys && forall t :: t in v ==> |v[t]| == |w[t]|
  }

  function AfterAllocs(v: Tables, n: nat, total: nat, calls: seq<Call>): (r: (Tables, nat))
    requires CallsOk(calls, v)
    ensures SameShape(v, r.0)
  {
    if calls == [] then (v, n)
    else
      var (w, m) := AfterAllocs(v, n, total, calls[..|calls| - 1]);
      var last := calls[|calls| - 1];
      assert IsEntry(v, last.t, last.i);
      AfterAlloc(w, m, total, last)
  }

  ghost predicate Held(v: Tables, f: nat) {
    exists t, i :: IsEntry(v, t, i) && v[t][i].frame == f
  }

  // Every frame handed out but frame 0 is in an entry, and no two entries of any
  // tables share one.
  ghost predicate Accounted(v: Tables, n: nat) {
    && (forall t, i :: IsEntry(v, t, i) ==> v[t][i].frame == 0 || v[t][i].frame < n)
    && (forall t, i, u, j :: IsEntry(v, t, i) && IsEntry(v, u, j) && (t != u || i != j) ==>
          v[t][i].frame == 0 || v[t][i].frame != v[u][j].frame)
    && (forall f :: 1 <= f < n ==> Held(v, f))
  }

  lemma AllocAccounted(v: Tables, n: nat, total: nat, c: Call)
    requires Accounted(v, n) && IsEntry(v, c.t, c.i)
    ensures var (v', n') := AfterAlloc(v, n, total, c); Accounted(v', n')
  {
    var (v', n') := AfterAlloc(v, n, total, c);
    forall t, i ensures IsEntry(v', t, i) <==> IsEntry(v, t, i) { }
    forall t, i | IsEntry(v, t, i) && (t != c.t || i != c.i) ensures v'[t][i] == v[t][i] { }
    forall f | 1 <= f < n' ensures Held(v', f) {
      if f < n {
        assert Held(v, f);
        var t, i :| IsEntry(v, t, i) && v[t][i].frame == f;
        assert IsEntry(v', t, i) && v'[t][i].frame == f;
      } else {
        assert IsEntry(v', c.t, c.i) && v'[c.t][c.i].frame == n;
      }
    }
  }

  // Over any sequence of calls on fresh tables no two entries get the same frame,
  // none gets one that was not handed out, and every frame past 0 is in an entry.
  lemma {:induction false} NoFrameTwice(v: Tables, total: nat, calls: seq<Call>)
    requires CallsOk(calls, v) && forall t, i :: IsEntry(v, t, i) ==> v[t][i].frame == 0
    ensures var (v', n) := AfterAllocs(v, 0, total, calls); Accounted(v', n) && n <= total
  {
    if calls != [] {
      var before := calls[..|calls| - 1];
      NoFrameTwice(v, total, before);
      var (w, m) := AfterAllocs(v, 0, total, before);
      var last := calls[|calls| - 1];
      assert IsEntry(v, last.t, last.i);
      AllocAccounted(w, m, total, last);
    }
  }

  // An entry without a frame that gets one keeps it at the next call, exactly when
  // that frame is not frame 0 or no other is left: frame 0 reads as none.
  lemma SecondCall(v: Tables, n: nat, total: nat, c: Call)
    requires IsEntry(v, c.t, c.i) && v[c.t][c.i].frame == 0 && n < total
    ensures var (w, m) := AfterAlloc(v, n, total, c);
            AfterAlloc(w, m, total, c) == (w, m) <==> n != 0 || total == 1
  {
    var (w, m) := AfterAlloc(v, n, total, c);
    assert w[c.t][c.i].frame == n && m == n + 1;
    assert w[c.t][c.i := w[c.t][c.i]] == w[c.t];
    assert w[c.t := w[c.t]] == w;
  }

  class FrameMap {
    const words: array<nat>

    ghost predicate Valid()
      reads this, words
    {
      WordsOk(words[..])
    }

    function Total(): nat { 32 * words.Length }

    // The bitmap, in place of the words of memory before it. Frames past the last
    // whole word of 32 are never used.
    constructor (nframes: nat, before: seq<nat>)
      requires |before| == nframes / 32 && WordsOk(before)
      ensures Valid() && fresh(words) && words.Length == nframes / 32
      ensures forall i :: 0 <= i < words.Length ==> words[i] == LeftOver(before, i)
      ensures HandedOut(0) <==> Blank(before)
    {
      words := new nat[nframes / 32](i requires 0 <= i < |before| => LeftOver(before, i));
      new;
      FreeIfBlank(before, words[..]);
    }

    // `set_frame`
    method SetFrame(frameAddr: nat)
      requires Valid() && frameAddr / 0x1000 < Total()
      modifies words
      ensures Valid()
      ensures forall h :: 0 <= h < Total() ==>
                (Taken(words[..], h) <==> h == frameAddr / 0x1000 || Taken(old(words[..]), h))
    {
      var frame := frameAddr / 0x1000;
      var idx, off := frame / 32, frame % 32;
      TakeFrame(words[..], frame);
      ghost var before := words[..];
      words[idx] := Or(words[idx], Pow2(off));
      assert words[..] == before[idx := Or(before[idx], Pow2(off))];
    }

    // `test_frame`
    method TestFrame(frameAddr: nat) returns (r: nat)
      requires Valid() && frameAddr / 0x1000 < Total()
      ensures r != 0 <==> Taken(words[..], frameAddr / 0x1000)
    {
      var frame := frameAddr / 0x1000;
      r := And(words[frame / 32], Pow2(frame % 32));
      TestBit(words[frame / 32], frame % 32);
    }

    // `first_frame`: the lowest free frame, or -1 exactly when there is none.
    method FirstFrame() returns (r: int)
      requires Valid()
      ensures LowestFree(words[..], r)
    {
      var i := 0;
      while i < words.Length
        invariant 0 <= i <= words.Length
        invariant forall f :: 0 <= f < 32 * i ==> Taken(words[..], f)
      {
        Pow2Values();
        AllOnes(words[i], 32);
        if words[i] != 0xFFFFFFFF {
          var j := 0;
          while j < 32
            invariant 0 <= j <= 32
            invariant AllBits(words[i], j)
          {
            TestBit(words[i], j);
            if And(words[i], Pow2(j)) == 0 {
              BitsTaken(words[..], i, j);
              return i * 4 * 8 + j;
            }
            j := j + 1;
          }
        }
        BitsTaken(words[..], i, 32);
        i := i + 1;
      }
      r := -1;
    }

    // The frames handed out are 0 .. n - 1.
    ghost predicate HandedOut(n: nat)
      reads words
    {
      TakenBelow(words[..], n)
    }

    // `alloc_frame` on entry i of a table. An entry that has a nonzero frame
    // keeps it; otherwise it gets the lowest free frame. False stands for the
    // panic when no frame is free.
    method AllocFrame(pages: array<Page>, i: nat, isKernel: bool, isWriteable: bool, ghost n: nat) returns (ok: bool)
      requires Valid() && HandedOut(n) && i < pages.Length
      modifies words, pages
      ensures Valid()
      ensures forall j :: 0 <= j < pages.Length && j != i ==> pages[j] == old(pages[j])
      ensures old(pages[i].frame) != 0 ==> ok && pages[i] == old(pages[i]) && HandedOut(n)
      ensures old(pages[i].frame) == 0 ==> (ok <==> n < Total())
      ensures old(pages[i].frame) == 0 && ok ==>
                && HandedOut(n + 1)
                && pages[i] == old(pages[i]).(present := true, rw := isWriteable, user := !isKernel, frame := n)
      ensures !ok ==> HandedOut(n) && pages[i] == old(pages[i])
      ensures pages[i] == Allotted(old(pages[i]), n, Total(), isKernel, isWriteable)
      ensures HandedOut(TakenAfter(old(pages[i]), n, Total()))
    {
      if pages[i].frame != 0 {
        return true;
      }
      var idx := FirstFrame();
      LowestIsNext(words[..], n, idx);
      if idx == -1 {
        return false;
      }
      SetFrame(idx * 0x1000);
      pages[i] := pages[i].(present := true, rw := isWriteable, user := !isKernel, frame := idx);
      ok := true;
    }
  }
}
