// Bitwise arithmetic on natural numbers: the operators the kernel applies to
// 32-bit words, defined digit by digit and related to ordinary arithmetic.
module Bits {

  function Pow2(n: nat): (p: nat)
    ensures p > 0
  {
    if n == 0 then 1 else 2 * Pow2(n - 1)
  }

  // The j-th binary digit of w.
  predicate Bit(w: nat, j: nat) {
    if j == 0 then w % 2 == 1 else Bit(w / 2, j - 1)
  }

  function And(a: nat, b: nat): nat {
    if a == 0 || b == 0 then 0
    else 2 * And(a / 2, b / 2) + if a % 2 == 1 && b % 2 == 1 then 1 else 0
  }

  function Or(a: nat, b: nat): nat {
    if a == 0 then b else if b == 0 then a
    else 2 * Or(a / 2, b / 2) + if a % 2 == 1 || b % 2 == 1 then 1 else 0
  }

  // Number of significant binary digits: 32 minus the leading-zero count.
  function BitLength(n: nat): nat {
    if n == 0 then 0 else 1 + BitLength(n / 2)
  }

  // n shifted right by k bits.
  function ShiftRight(n: nat, k: nat): nat {
    if k == 0 then n else ShiftRight(n / 2, k - 1)
  }

  lemma {:induction false} ShiftRightBounds(n: nat, k: nat)
    ensures ShiftRight(n, k) * Pow2(k) <= n < ShiftRight(n, k) * Pow2(k) + Pow2(k)
  {
    if k > 0 {
      ShiftRightBounds(n / 2, k - 1);
      DoubleProduct(ShiftRight(n, k), Pow2(k - 1));
    }
  }

  lemma DoubleProduct(q: nat, p: nat)
    ensures q * (2 * p) == 2 * (q * p)
  {
  }

  lemma Pow2Monotone(a: nat, b: nat)
    requires a <= b
    ensures Pow2(a) <= Pow2(b)
    decreases b - a
  {
    if a < b { Pow2Monotone(a, b - 1); }
  }

  lemma Pow2Add(a: nat, b: nat)
    ensures Pow2(a + b) == Pow2(a) * Pow2(b)
  {
    if a > 0 { Pow2Add(a - 1, b); }
  }

  lemma {:induction false} ZeroHasNoBits(j: nat)
    ensures !Bit(0, j)
  {
    if j > 0 { ZeroHasNoBits(j - 1); }
  }

  lemma Halve(h: nat, d: nat)
    requires d < 2
    ensures (2 * h + d) / 2 == h && (2 * h + d) % 2 == d
  {
  }

  lemma {:induction false} AndBit(a: nat, b: nat, j: nat)
    ensures Bit(And(a, b), j) <==> Bit(a, j) && Bit(b, j)
    decreases j
  {
    if a == 0 || b == 0 {
      ZeroHasNoBits(j);
    } else if j > 0 {
      Halve(And(a / 2, b / 2), if a % 2 == 1 && b % 2 == 1 then 1 else 0);
      AndBit(a / 2, b / 2, j - 1);
    }
  }

  lemma {:induction false} OrBit(a: nat, b: nat, j: nat)
    ensures Bit(Or(a, b), j) <==> Bit(a, j) || Bit(b, j)
    decreases j
  {
    if a == 0 || b == 0 {
      ZeroHasNoBits(j);
    } else if j > 0 {
      Halve(Or(a / 2, b / 2), if a % 2 == 1 || b % 2 == 1 then 1 else 0);
      OrBit(a / 2, b / 2, j - 1);
    }
  }

  lemma {:induction false} OrBound(a: nat, b: nat, n: nat)
    requires a < Pow2(n) && b < Pow2(n)
    ensures Or(a, b) < Pow2(n)
  {
    if a != 0 && b != 0 {
      OrBound(a / 2, b / 2, n - 1);
    }
  }

  lemma {:induction false} Pow2Bit(k: nat, j: nat)
    ensures Bit(Pow2(k), j) <==> j == k
  {
    if k == 0 {
      if j > 0 { ZeroHasNoBits(j - 1); }
    } else if j > 0 {
      Pow2Bit(k - 1, j - 1);
    }
  }

  // A word with a mask of one bit is nonzero exactly when that bit is set.
  lemma {:induction false} TestBit(w: nat, k: nat)
    ensures And(w, Pow2(k)) != 0 <==> Bit(w, k)
  {
    if w == 0 {
      ZeroHasNoBits(k);
    } else if k == 0 {
      assert And(w / 2, 0) == 0;
    } else {
      assert Pow2(k) / 2 == Pow2(k - 1);
      TestBit(w / 2, k - 1);
    }
  }

  // An n-digit word has all its digits set exactly when it is the largest one.
  predicate AllBits(w: nat, n: nat) {
    forall j :: 0 <= j < n ==> Bit(w, j)
  }

  lemma {:induction false} AllOnes(w: nat, n: nat)
    requires w < Pow2(n)
    ensures w == Pow2(n) - 1 <==> AllBits(w, n)
  {
    if n > 0 {
      var h := w / 2;
      AllOnes(h, n - 1);
      if AllBits(w, n) {
        assert Bit(w, 0);
        forall j | 0 <= j < n - 1 ensures Bit(h, j) { assert Bit(w, j + 1); }
        assert AllBits(h, n - 1);
      }
      if AllBits(h, n - 1) && w % 2 == 1 {
        forall j | 0 <= j < n ensures Bit(w, j) {
          if j > 0 { assert Bit(h, j - 1); }
        }
      }
    }
  }

  // And it has none set exactly when it is zero.
  predicate NoBit(w: nat, n: nat) {
    forall j :: 0 <= j < n ==> !Bit(w, j)
  }

  lemma {:induction false} AllZeros(w: nat, n: nat)
    requires w < Pow2(n)
    ensures w == 0 <==> NoBit(w, n)
  {
    if n > 0 {
      var h := w / 2;
      AllZeros(h, n - 1);
      if NoBit(w, n) {
        assert !Bit(w, 0);
        forall j | 0 <= j < n - 1 ensures !Bit(h, j) { assert !Bit(w, j + 1); }
      }
      if w == 0 {
        forall j | 0 <= j < n ensures !Bit(w, j) { ZeroHasNoBits(j); }
      }
    }
  }

  lemma {:induction false} BitLengthBounds(n: nat)
    requires n > 0
    ensures BitLength(n) > 0
    ensures Pow2(BitLength(n) - 1) <= n < Pow2(BitLength(n))
  {
    if n > 1 { BitLengthBounds(n / 2); }
  }

  // The test `size & (size - 1)` of heap.c recognises the powers of two.
  lemma {:induction false} PowerOfTwoTest(n: nat)
    requires n > 0
    ensures BitLength(n) > 0
    ensures And(n, n - 1) == 0 <==> n == Pow2(BitLength(n) - 1)
  {
    if n > 1 {
      BitLengthBounds(n / 2);
      if n % 2 == 0 {
        assert (n - 1) / 2 == n / 2 - 1;
        PowerOfTwoTest(n / 2);
      } else {
        assert (n - 1) / 2 == n / 2;
        AndSelf(n / 2);
      }
    }
  }

  lemma {:induction false} AndSelf(n: nat)
    ensures And(n, n) == n
  {
    if n > 0 { AndSelf(n / 2); }
  }

  lemma {:induction false} AndOnes(p: nat, k: nat)
    requires p < Pow2(k)
    ensures And(p, Pow2(k) - 1) == p
  {
    if p > 0 {
      assert (Pow2(k) - 1) / 2 == Pow2(k - 1) - 1;
      AndOnes(p / 2, k - 1);
    }
  }

  // k ones followed by s zeros.
  function HighOnes(k: nat, s: nat): (r: nat)
    ensures r == Pow2(k + s) - Pow2(s)
  {
    if s == 0 then Pow2(k) - 1 else 2 * HighOnes(k, s - 1)
  }

  lemma {:induction false} AndHighOnes(p: nat, k: nat, s: nat)
    requires p < Pow2(k + s)
    ensures And(p, HighOnes(k, s)) == p - p % Pow2(s)
  {
    if s == 0 {
      AndOnes(p, k);
    } else {
      AndHighOnes(p / 2, k, s - 1);
      HalfRemainder(p, Pow2(s - 1));
      if p > 0 && HighOnes(k, s) > 0 {
        Halve(HighOnes(k, s - 1), 0);
      } else if p > 0 {
        Pow2Monotone(s, k + s);
        assert And(p / 2, HighOnes(k, s - 1)) == 0;
      }
    }
  }

  lemma HalfRemainder(p: nat, d: nat)
    requires d > 0
    ensures p % (2 * d) == 2 * (p / 2 % d) + p % 2
  {
    var q, r := p / 2 / d, p / 2 % d;
    assert p == 2 * d * q + (2 * r + p % 2) by { assert p / 2 == d * q + r; }
    RemainderUnique(p, 2 * d, q, 2 * r + p % 2);
  }

  // Distinct multiples of d lie at least d apart.
  lemma {:induction false} MultipleStep(d: nat, a: int, b: int)
    ensures a < b ==> d * a + d <= d * b
    decreases b - a
  {
    if a + 1 < b {
      MultipleStep(d, a, b - 1);
      assert d * b == d * (b - 1) + d;
    } else if a < b {
      assert d * b == d * a + d;
    }
  }

  lemma RemainderUnique(p: nat, d: nat, q: nat, r: nat)
    requires p == d * q + r && r < d
    ensures p / d == q && p % d == r
  {
    var q', r' := p / d, p % d;
    assert p == d * q' + r';
    MultipleStep(d, q, q');
    MultipleStep(d, q', q);
  }

  // The page mask rounds a 32-bit address down to its page.
  lemma PageMask(p: nat)
    requires p < 0x1_0000_0000
    ensures And(p, 0xFFFFF000) == p - p % 0x1000
  {
    Pow2Values();
    AndHighOnes(p, 20, 12);
  }

  lemma Pow2Values()
    ensures Pow2(2) == 4 && Pow2(11) == 2048 && Pow2(12) == 4096
    ensures Pow2(20) == 0x100000 && Pow2(32) == 0x1_0000_0000
  {
    assert Pow2(3) == 8;
    assert Pow2(6) == 64;
    assert Pow2(9) == 512;
    Pow2Add(11, 9);
    Pow2Add(12, 20);
  }

  lemma Pow2Bytes()
    ensures Pow2(0) == 1 && Pow2(8) == 0x100 && Pow2(16) == 0x1_0000
    ensures Pow2(24) == 0x100_0000 && Pow2(32) == 0x1_0000_0000
  {
    assert Pow2(4) == 16;
    Pow2Add(4, 4);
    Pow2Add(8, 8);
    Pow2Add(8, 16);
    Pow2Add(16, 16);
  }

  lemma HalfQuotient(w: nat, d: nat)
    requires d > 0
    ensures w / (2 * d) == w / 2 / d
  {
    var q, r := w / 2 / d, w / 2 % d;
    assert w == 2 * d * q + (2 * r + w % 2) by { assert w / 2 == d * q + r; }
    RemainderUnique(w, 2 * d, q, 2 * r + w % 2);
  }

  // The j-th binary digit, by arithmetic.
  lemma {:induction false} BitIs(w: nat, j: nat)
    ensures Bit(w, j) <==> w / Pow2(j) % 2 == 1
  {
    if j > 0 {
      BitIs(w / 2, j - 1);
      HalfQuotient(w, Pow2(j - 1));
    }
  }
}
