// Physical memory: 32-bit little-endian words at multiples of four, with the
// byte view that clients, memset and memcpy use.
module RamModel {

  type Word = w: int | 0 <= w < 0x1_0000_0000
  type Byte = b: int | 0 <= b < 0x100
  type Memory = map<int, Word>

  // Memory starts out zeroed; a word never written reads as zero.
  function Rd(m: Memory, a: int): (w: int)
    ensures 0 <= w < 0x1_0000_0000
  {
    if a in m then m[a] else 0
  }

  // 256 to the power n.
  function Bytes(n: nat): (p: nat)
    ensures p > 0
  {
    if n == 0 then 1 else 0x100 * Bytes(n - 1)
  }

  // The i-th byte of a little-endian word.
  function ByteOf(w: nat, i: nat): Byte {
    if i == 0 then w % 0x100 else ByteOf(w / 0x100, i - 1)
  }

  function SetByte(w: nat, i: nat, v: Byte): nat {
    if i == 0 then w - w % 0x100 + v else w % 0x100 + 0x100 * SetByte(w / 0x100, i - 1, v)
  }

  lemma {:induction false} SetByteBound(w: nat, i: nat, v: Byte, n: nat)
    requires i < n && w < Bytes(n)
    ensures SetByte(w, i, v) < Bytes(n)
  {
    if i > 0 { SetByteBound(w / 0x100, i - 1, v, n - 1); }
  }

  lemma {:induction false} SetByteBytes(w: nat, i: nat, v: Byte, j: nat)
    ensures ByteOf(SetByte(w, i, v), j) == if i == j then v else ByteOf(w, j)
  {
    var w' := SetByte(w, i, v);
    if i == 0 {
      assert w' % 0x100 == v && w' / 0x100 == w / 0x100;
    } else {
      assert w' % 0x100 == w % 0x100 && w' / 0x100 == SetByte(w / 0x100, i - 1, v);
      if j > 0 { SetByteBytes(w / 0x100, i - 1, v, j - 1); }
    }
  }

  // The byte at address x of a little-endian memory.
  function ByteAt(m: Memory, x: int): Byte {
    ByteOf(Rd(m, x - x % 4), x % 4)
  }

  function StoreByte(m: Memory, x: int, v: Byte): Memory {
    SetByteBound(Rd(m, x - x % 4), x % 4, v, 4);
    m[x - x % 4 := SetByte(Rd(m, x - x % 4), x % 4, v)]
  }

  lemma StoreByteBytes(m: Memory, x: int, v: Byte, y: int)
    ensures ByteAt(StoreByte(m, x, v), y) == if x == y then v else ByteAt(m, y)
  {
    SetByteBytes(Rd(m, x - x % 4), x % 4, v, y % 4);
  }

  // The lowest byte of a word comes first.
  lemma LittleEndian(m: Memory, x: int)
    requires x % 4 == 0
    ensures Rd(m, x) == ByteAt(m, x) + 0x100 * ByteAt(m, x + 1)
                        + 0x1_0000 * ByteAt(m, x + 2) + 0x100_0000 * ByteAt(m, x + 3)
  {
    var w := Rd(m, x);
    var a, b, c := w / 0x100, w / 0x100 / 0x100, w / 0x100 / 0x100 / 0x100;
    assert (x + 1) % 4 == 1 && (x + 2) % 4 == 2 && (x + 3) % 4 == 3;
    assert ByteOf(w, 1) == ByteOf(a, 0) && ByteOf(w, 2) == ByteOf(a, 1) == ByteOf(b, 0);
    assert ByteOf(w, 3) == ByteOf(a, 2) == ByteOf(b, 1) == ByteOf(c, 0);
  }

  // What len ascending byte stores of val leave behind.
  function Filled(m: Memory, dest: int, val: Byte, len: nat): Memory {
    if len == 0 then m else StoreByte(Filled(m, dest, val, len - 1), dest + len - 1, val)
  }

  // What copying len bytes one at a time, in ascending order, leaves behind.
  function Copied(m: Memory, dest: int, src: int, len: nat): Memory {
    if len == 0 then m
    else
      var part := Copied(m, dest, src, len - 1);
      StoreByte(part, dest + len - 1, ByteAt(part, src + len - 1))
  }

  lemma {:induction false} FilledBytes(m: Memory, dest: int, val: Byte, len: nat, y: int)
    ensures ByteAt(Filled(m, dest, val, len), y) == if dest <= y < dest + len then val else ByteAt(m, y)
  {
    if len > 0 {
      FilledBytes(m, dest, val, len - 1, y);
      StoreByteBytes(Filled(m, dest, val, len - 1), dest + len - 1, val, y);
    }
  }

  lemma WordStart(dest: int, i: nat)
    requires dest % 4 == 0
    ensures dest <= (dest + i) - (dest + i) % 4 <= dest + i
  {
  }

  lemma {:induction false} FilledWords(m: Memory, dest: int, val: Byte, len: nat, a: int)
    requires dest % 4 == 0 && (a < dest || dest + len <= a)
    ensures Rd(Filled(m, dest, val, len), a) == Rd(m, a)
  {
    if len > 0 {
      FilledWords(m, dest, val, len - 1, a);
      WordStart(dest, len - 1);
    }
  }

  // Copying between ranges that do not overlap reads only original bytes.
  lemma {:induction false} CopiedBytes(m: Memory, dest: int, src: int, len: nat, y: int)
    requires dest + len <= src || src + len <= dest
    ensures ByteAt(Copied(m, dest, src, len), y) ==
            if dest <= y < dest + len then ByteAt(m, y - dest + src) else ByteAt(m, y)
  {
    if len > 0 {
      var part := Copied(m, dest, src, len - 1);
      CopiedBytes(m, dest, src, len - 1, y);
      CopiedBytes(m, dest, src, len - 1, src + len - 1);
      StoreByteBytes(part, dest + len - 1, ByteAt(part, src + len - 1), y);
    }
  }

  lemma {:induction false} CopiedWords(m: Memory, dest: int, src: int, len: nat, a: int)
    requires dest % 4 == 0 && (a < dest || dest + len <= a)
    ensures Rd(Copied(m, dest, src, len), a) == Rd(m, a)
  {
    if len > 0 {
      CopiedWords(m, dest, src, len - 1, a);
      WordStart(dest, len - 1);
    }
  }

  class Ram {
    var m: Memory

    constructor ()
      ensures m == map[]
    {
      m := map[];
    }

    method Store(a: int, v: Word)
      modifies this
      ensures m == old(m)[a := v]
    {
      m := m[a := v];
    }

    method MemSet(dest: int, val: Byte, len: nat)
      modifies this
      ensures m == Filled(old(m), dest, val, len)
    {
      var left, p := len, dest;
      while left != 0
        invariant 0 <= left <= len && p == dest + len - left
        invariant m == Filled(old(m), dest, val, len - left)
      {
        m := StoreByte(m, p, val);
        p, left := p + 1, left - 1;
      }
    }

    method MemCpy(dest: int, src: int, len: nat)
      modifies this
      ensures m == Copied(old(m), dest, src, len)
    {
      var left, dp, sp := len, dest, src;
      while left != 0
        invariant 0 <= left <= len && dp == dest + len - left && sp == src + len - left
        invariant m == Copied(old(m), dest, src, len - left)
      {
        m := StoreByte(m, dp, ByteAt(m, sp));
        dp, sp, left := dp + 1, sp + 1, left - 1;
      }
    }
  }
}
